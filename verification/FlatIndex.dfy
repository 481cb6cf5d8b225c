/** What a B+ tree index computes, without its internal nodes (src/core/btree.cpp): its leaves from left
    to right, and the separators between neighbouring leaves. The tree class in BPlusTree.dfy is proved
    to change its leaves and separators exactly as the functions here say, duplicates included. */
module FlatIndex {
  import opened Values

  datatype Entry = Entry(key: Value, row: nat)
  type Leaf = seq<Entry>
  datatype Flat = Flat(leaves: seq<Leaf>, seps: seq<Value>)

  /** The index before its first insertion: there is no root. */
  const EMPTY := Flat([], [])

  // ----- operations

  /** The number of separators at the front that are at most k; descending takes the child after them,
      so an equal separator sends the search right. */
  function Route(pool: seq<string>, seps: seq<Value>, k: Value): (p: nat)
    ensures p <= |seps|
    ensures forall j | 0 <= j < p :: Cmp(pool, seps[j], k) <= 0
    ensures p < |seps| ==> Cmp(pool, seps[p], k) > 0
  {
    if seps == [] || Cmp(pool, seps[0], k) > 0 then 0 else 1 + Route(pool, seps[1..], k)
  }

  /** The number of entries at the front whose key is less than k. */
  function Slot(pool: seq<string>, es: Leaf, k: Value): (p: nat)
    ensures p <= |es|
    ensures forall j | 0 <= j < p :: Cmp(pool, es[j].key, k) < 0
    ensures p < |es| ==> Cmp(pool, es[p].key, k) >= 0
  {
    if es == [] || Cmp(pool, es[0].key, k) >= 0 then 0 else 1 + Slot(pool, es[1..], k)
  }

  function WithEntry(pool: seq<string>, es: Leaf, e: Entry): Leaf {
    var p := Slot(pool, es, e.key);
    es[..p] + [e] + es[p..]
  }

  predicate Shape(f: Flat) {
    if f.leaves == [] then f.seps == [] else |f.leaves| == |f.seps| + 1
  }

  /** Leaf p becomes `leaf`, split in two when it holds more than `order` entries; the separator of the
      halves is the first key of the right one. */
  function Put(order: nat, f: Flat, p: nat, leaf: Leaf): Flat
    requires Shape(f) && p < |f.leaves| && leaf != []
  {
    if |leaf| <= order then Flat(f.leaves[p := leaf], f.seps)
    else
      var mid := |leaf| / 2;
      Flat(f.leaves[..p] + [leaf[..mid], leaf[mid..]] + f.leaves[p + 1..],
           f.seps[..p] + [leaf[mid].key] + f.seps[p..])
  }

  function Insert(pool: seq<string>, order: nat, f: Flat, e: Entry): Flat
    requires Shape(f)
  {
    if f.leaves == [] then Flat([[e]], [])
    else
      var p := Route(pool, f.seps, e.key);
      Put(order, f, p, WithEntry(pool, f.leaves[p], e))
  }

  predicate Matches(pool: seq<string>, e: Entry, k: Value, row: nat) {
    Cmp(pool, e.key, k) == 0 && e.row == row
  }

  /** The position of the first entry that matches, or |es|. */
  function MatchPos(pool: seq<string>, es: Leaf, k: Value, row: nat): (p: nat)
    ensures p <= |es|
    ensures forall j | 0 <= j < p :: !Matches(pool, es[j], k, row)
    ensures p < |es| ==> Matches(pool, es[p], k, row)
  {
    if es == [] || Matches(pool, es[0], k, row) then 0 else 1 + MatchPos(pool, es[1..], k, row)
  }

  function Without<T>(s: seq<T>, p: nat): seq<T> {
    if p < |s| then s[..p] + s[p + 1..] else s
  }

  /** The first match, walking the leaves in chain order, is taken out of its leaf. */
  function EraseLeaves(pool: seq<string>, ls: seq<Leaf>, k: Value, row: nat): (r: seq<Leaf>)
    ensures |r| == |ls|
  {
    if ls == [] then []
    else
      var m := MatchPos(pool, ls[0], k, row);
      if m < |ls[0]| then [Without(ls[0], m)] + ls[1..]
      else [ls[0]] + EraseLeaves(pool, ls[1..], k, row)
  }

  /** The leaves the search for k visits: the one it descends to and those to its right. */
  function Tail(pool: seq<string>, f: Flat, k: Value): seq<Leaf>
    requires Shape(f)
  {
    f.leaves[Route(pool, f.seps, k)..]
  }

  function Erase(pool: seq<string>, f: Flat, k: Value, row: nat): Flat
    requires Shape(f)
  {
    if f.leaves == [] then f
    else
      var p := Route(pool, f.seps, k);
      Flat(f.leaves[..p] + EraseLeaves(pool, f.leaves[p..], k, row), f.seps)
  }

  /** Whether the erasure finds a match, that is, what `erase` returns. */
  predicate Erases(pool: seq<string>, f: Flat, k: Value, row: nat)
    requires Shape(f)
  {
    var es := Concat(Tail(pool, f, k));
    MatchPos(pool, es, k, row) < |es|
  }

  function Concat(ls: seq<Leaf>): Leaf {
    if ls == [] then [] else ls[0] + Concat(ls[1..])
  }

  /** All entries from left to right. */
  function Contents(f: Flat): Leaf {
    Concat(f.leaves)
  }

  /** Collects the rows of keys equal to k, up to the first key greater than k. */
  function ScanEqual(pool: seq<string>, es: Leaf, k: Value): seq<nat> {
    if es == [] || Cmp(pool, es[0].key, k) > 0 then []
    else if Cmp(pool, es[0].key, k) == 0 then [es[0].row] + ScanEqual(pool, es[1..], k)
    else ScanEqual(pool, es[1..], k)
  }

  function FindEqual(pool: seq<string>, f: Flat, k: Value): seq<nat>
    requires Shape(f)
  {
    ScanEqual(pool, Concat(Tail(pool, f, k)), k)
  }

  datatype Bounds = Bounds(low: Value, high: Value, lowIncl: bool, highIncl: bool)

  predicate InBounds(pool: seq<string>, b: Bounds, k: Value) {
    && (if b.lowIncl then Cmp(pool, k, b.low) >= 0 else Cmp(pool, k, b.low) > 0)
    && (if b.highIncl then Cmp(pool, k, b.high) <= 0 else Cmp(pool, k, b.high) < 0)
  }

  /** Collects the rows of keys within the bounds, up to the first key greater than the upper one. */
  function ScanRange(pool: seq<string>, es: Leaf, b: Bounds): seq<nat> {
    if es == [] then []
    else
      var hit := if InBounds(pool, b, es[0].key) then [es[0].row] else [];
      if Cmp(pool, es[0].key, b.high) > 0 then hit else hit + ScanRange(pool, es[1..], b)
  }

  function Range(pool: seq<string>, f: Flat, b: Bounds): seq<nat>
    requires Shape(f)
  {
    ScanRange(pool, Concat(Tail(pool, f, b.low)), b)
  }

  // ----- the invariant

  predicate Ascending(pool: seq<string>, ks: seq<Value>) {
    forall i, j | 0 <= i < j < |ks| :: Cmp(pool, ks[i], ks[j]) <= 0
  }

  predicate Ordered(pool: seq<string>, es: Leaf) {
    forall i, j | 0 <= i < j < |es| :: Cmp(pool, es[i].key, es[j].key) <= 0
  }

  /** v may stand in leaf i: it lies between the separators on either side of that leaf. */
  predicate Fits(pool: seq<string>, seps: seq<Value>, i: nat, v: Value) {
    && (0 < i <= |seps| ==> Cmp(pool, seps[i - 1], v) <= 0)
    && (i < |seps| ==> Cmp(pool, v, seps[i]) <= 0)
  }

  predicate LeafOk(pool: seq<string>, seps: seq<Value>, i: nat, leaf: Leaf) {
    Ordered(pool, leaf) && forall x | 0 <= x < |leaf| :: Fits(pool, seps, i, leaf[x].key)
  }

  /** Separators ascend and bound the ordered leaves between them. */
  predicate Sorted(pool: seq<string>, f: Flat) {
    && Shape(f)
    && Ascending(pool, f.seps)
    && forall i | 0 <= i < |f.leaves| :: LeafOk(pool, f.seps, i, f.leaves[i])
  }

  predicate StrictLeaf(pool: seq<string>, seps: seq<Value>, i: nat, leaf: Leaf) {
    i < |seps| ==> forall x | 0 <= x < |leaf| :: Cmp(pool, leaf[x].key, seps[i]) < 0
  }

  /** No leaf holds a key equal to the separator on its right: what duplicates can break. */
  predicate Strict(pool: seq<string>, f: Flat) {
    forall i | 0 <= i < |f.leaves| :: StrictLeaf(pool, f.seps, i, f.leaves[i])
  }

  /** No two entries have equal keys. */
  predicate KeysDiffer(pool: seq<string>, es: Leaf) {
    forall i, j | 0 <= i < j < |es| :: Cmp(pool, es[i].key, es[j].key) != 0
  }

  predicate AllInterned(pool: seq<string>, f: Flat) {
    && (forall e | e in Contents(f) :: Interned(pool, e.key))
    && (forall s | s in f.seps :: Interned(pool, s))
  }

  // ----- concatenation

  lemma {:induction false} ConcatAdd(a: seq<Leaf>, b: seq<Leaf>)
    ensures Concat(a + b) == Concat(a) + Concat(b)
  {
    if a == [] {
      assert a + b == b;
    } else {
      ConcatAdd(a[1..], b);
      assert (a + b)[1..] == a[1..] + b && (a + b)[0] == a[0];
      assert a[0] + (Concat(a[1..]) + Concat(b)) == (a[0] + Concat(a[1..])) + Concat(b);
    }
  }

  /** Splits the contents around leaf p. */
  lemma ConcatAround(ls: seq<Leaf>, p: nat)
    requires p < |ls|
    ensures Concat(ls) == Concat(ls[..p]) + ls[p] + Concat(ls[p + 1..])
    ensures Concat(ls[p..]) == ls[p] + Concat(ls[p + 1..])
  {
    assert ls == ls[..p] + ls[p..];
    ConcatAdd(ls[..p], ls[p..]);
    assert ls[p..][1..] == ls[p + 1..];
  }

  lemma {:induction false} ConcatMember(ls: seq<Leaf>, e: Entry) returns (i: nat, x: nat)
    requires e in Concat(ls)
    ensures i < |ls| && x < |ls[i]| && ls[i][x] == e
  {
    if e in ls[0] {
      i := 0;
      x :| 0 <= x < |ls[0]| && ls[0][x] == e;
    } else {
      i, x := ConcatMember(ls[1..], e);
      i := i + 1;
    }
  }

  // ----- insertion

  lemma SpliceOrdered(pool: seq<string>, es: Leaf, p: nat, e: Entry)
    requires Ordered(pool, es) && p <= |es|
    requires forall j | 0 <= j < p :: Cmp(pool, es[j].key, e.key) <= 0
    requires forall j | p <= j < |es| :: Cmp(pool, e.key, es[j].key) <= 0
    ensures Ordered(pool, es[..p] + [e] + es[p..])
  {
    hide Cmp;
    var r := es[..p] + [e] + es[p..];
    forall x, y | 0 <= x < y < |r|
      ensures Cmp(pool, r[x].key, r[y].key) <= 0
    {
      assert r[x] == if x < p then es[x] else if x == p then e else es[x - 1];
      assert r[y] == if y < p then es[y] else if y == p then e else es[y - 1];
    }
  }

  lemma WithEntryOrdered(pool: seq<string>, es: Leaf, e: Entry)
    requires Ordered(pool, es)
    ensures Ordered(pool, WithEntry(pool, es, e))
  {
    CmpLaws(pool);
    hide Cmp;
    var p := Slot(pool, es, e.key);
    forall j | p <= j < |es|
      ensures Cmp(pool, e.key, es[j].key) <= 0
    {
      assert j == p || Cmp(pool, es[p].key, es[j].key) <= 0;
    }
    SpliceOrdered(pool, es, p, e);
  }

  lemma WithEntryOk(pool: seq<string>, seps: seq<Value>, i: nat, es: Leaf, e: Entry)
    requires LeafOk(pool, seps, i, es) && Fits(pool, seps, i, e.key)
    ensures LeafOk(pool, seps, i, WithEntry(pool, es, e))
  {
    WithEntryOrdered(pool, es, e);
    hide Cmp, Fits, Ordered, Slot;
    var r := WithEntry(pool, es, e);
    forall x | 0 <= x < |r|
      ensures Fits(pool, seps, i, r[x].key)
    {
      assert r[x] == e || r[x] in es;
    }
  }

  lemma RouteFits(pool: seq<string>, seps: seq<Value>, k: Value)
    ensures Fits(pool, seps, Route(pool, seps, k), k)
    ensures Route(pool, seps, k) < |seps| ==> Cmp(pool, k, seps[Route(pool, seps, k)]) < 0
  {
    CmpLaws(pool);
  }

  /** On ascending separators, the leaf whose neighbours bound k from both sides is the one the search
      for k descends to. */
  lemma RouteUnique(pool: seq<string>, seps: seq<Value>, k: Value, p: nat)
    requires Ascending(pool, seps) && p <= |seps|
    requires p > 0 ==> Cmp(pool, seps[p - 1], k) <= 0
    requires p < |seps| ==> Cmp(pool, seps[p], k) > 0
    ensures p == Route(pool, seps, k)
  {
    CmpLaws(pool);
    hide Cmp, Route;
    var r := Route(pool, seps, k);
  }

  lemma PutSorted(pool: seq<string>, order: nat, f: Flat, p: nat, leaf: Leaf)
    requires Sorted(pool, f) && p < |f.leaves| && leaf != [] && LeafOk(pool, f.seps, p, leaf)
    ensures Sorted(pool, Put(order, f, p, leaf))
  {
    var r := Put(order, f, p, leaf);
    if |leaf| > order {
      var mid := |leaf| / 2;
      SplitSeparators(pool, f.seps, p, leaf[mid].key);
      forall i | 0 <= i < |r.leaves|
        ensures LeafOk(pool, r.seps, i, r.leaves[i])
      {
        if i == p {
          SplitLeafOk(pool, f.seps, p, leaf, mid);
        } else if i == p + 1 {
          SplitLeafOk(pool, f.seps, p, leaf, mid);
        } else {
          var o := if i < p then i else i - 1;
          assert LeafOk(pool, f.seps, o, f.leaves[o]) && r.leaves[i] == f.leaves[o];
          FarLeafOk(pool, f.seps, p, leaf[mid].key, i, r.leaves[i]);
        }
      }
    }
  }

  lemma SplitSeparators(pool: seq<string>, seps: seq<Value>, p: nat, s: Value)
    requires Ascending(pool, seps) && p <= |seps| && Fits(pool, seps, p, s)
    ensures Ascending(pool, seps[..p] + [s] + seps[p..])
  {
    CmpLaws(pool);
    hide Cmp;
    var r := seps[..p] + [s] + seps[p..];
    forall i, j | 0 <= i < j < |r|
      ensures Cmp(pool, r[i], r[j]) <= 0
    {
      if i < p && p <= j && p > 0 {
        assert i == p - 1 || Cmp(pool, seps[i], seps[p - 1]) <= 0;
        assert Cmp(pool, seps[i], s) <= 0;
      }
      if i <= p && p < j && p < |seps| {
        assert j - 1 == p || Cmp(pool, seps[p], seps[j - 1]) <= 0;
        assert Cmp(pool, s, seps[j - 1]) <= 0;
      }
    }
  }

  lemma SplitLeafOk(pool: seq<string>, seps: seq<Value>, p: nat, leaf: Leaf, mid: nat)
    requires p <= |seps| && mid < |leaf| && LeafOk(pool, seps, p, leaf)
    ensures LeafOk(pool, seps[..p] + [leaf[mid].key] + seps[p..], p, leaf[..mid])
    ensures LeafOk(pool, seps[..p] + [leaf[mid].key] + seps[p..], p + 1, leaf[mid..])
  {
    CmpLaws(pool);
    hide Cmp;
    forall x | 0 <= x < |leaf|
      ensures Fits(pool, seps, p, leaf[x].key)
    {
    }
  }

  lemma FarLeafOk(pool: seq<string>, seps: seq<Value>, p: nat, s: Value, i: nat, leaf: Leaf)
    requires p <= |seps| && i != p && i != p + 1
    requires LeafOk(pool, seps, if i < p then i else i - 1, leaf)
    ensures LeafOk(pool, seps[..p] + [s] + seps[p..], i, leaf)
  {
    hide Cmp;
    var r := seps[..p] + [s] + seps[p..];
    var o := if i < p then i else i - 1;
    forall x | 0 <= x < |leaf|
      ensures Fits(pool, r, i, leaf[x].key)
    {
      assert Fits(pool, seps, o, leaf[x].key);
    }
  }

  /** Insertion keeps the index sorted, duplicates or not. */
  lemma InsertSorted(pool: seq<string>, order: nat, f: Flat, e: Entry)
    requires Sorted(pool, f)
    ensures Sorted(pool, Insert(pool, order, f, e))
  {
    if f.leaves != [] {
      var p := Route(pool, f.seps, e.key);
      RouteFits(pool, f.seps, e.key);
      WithEntryOk(pool, f.seps, p, f.leaves[p], e);
      PutSorted(pool, order, f, p, WithEntry(pool, f.leaves[p], e));
    }
  }

  lemma PutContents(order: nat, f: Flat, p: nat, leaf: Leaf)
    requires Shape(f) && p < |f.leaves| && leaf != []
    ensures Contents(Put(order, f, p, leaf)) == Concat(f.leaves[..p]) + leaf + Concat(f.leaves[p + 1..])
  {
    var r := Put(order, f, p, leaf);
    if |leaf| <= order {
      ConcatAround(r.leaves, p);
    } else {
      var mid := |leaf| / 2;
      var halves := [leaf[..mid], leaf[mid..]];
      assert Concat(halves) == leaf by {
        assert halves[1..] == [leaf[mid..]];
        assert Concat([leaf[mid..]]) == leaf[mid..];
      }
      ConcatAdd(f.leaves[..p], halves);
      ConcatAdd(f.leaves[..p] + halves, f.leaves[p + 1..]);
    }
  }

  lemma SpliceAround<T>(a: seq<T>, b: seq<T>, c: seq<T>, s: nat, e: T)
    requires s <= |b|
    ensures a + (b[..s] + [e] + b[s..]) + c == (a + b + c)[..|a| + s] + [e] + (a + b + c)[|a| + s..]
  {
    assert (a + b + c)[..|a| + s] == a + b[..s];
    assert (a + b + c)[|a| + s..] == b[s..] + c;
  }

  lemma SpliceMultiset<T>(c: seq<T>, at: nat, e: T)
    requires at <= |c|
    ensures multiset(c[..at] + [e] + c[at..]) == multiset(c) + multiset{e}
  {
    assert c == c[..at] + c[at..];
  }

  /** Where an insertion puts the new entry. */
  lemma InsertSplices(pool: seq<string>, order: nat, f: Flat, e: Entry) returns (at: nat)
    requires Shape(f) && f.leaves != []
    ensures at <= |Contents(f)|
    ensures Contents(Insert(pool, order, f, e)) == Contents(f)[..at] + [e] + Contents(f)[at..]
  {
    hide Cmp, Route, Slot, Put, Concat;
    var p := Route(pool, f.seps, e.key);
    var leaf := f.leaves[p];
    var s := Slot(pool, leaf, e.key);
    PutContents(order, f, p, WithEntry(pool, leaf, e));
    ConcatAround(f.leaves, p);
    var left, right := Concat(f.leaves[..p]), Concat(f.leaves[p + 1..]);
    at := |left| + s;
    SpliceAround(left, leaf, right, s, e);
  }

  lemma InsertInEmpty(pool: seq<string>, order: nat, f: Flat, e: Entry)
    requires Shape(f) && f.leaves == []
    ensures Contents(f) == [] && Contents(Insert(pool, order, f, e)) == [][..0] + [e] + [][0..]
  {
    assert Concat([[e]]) == [e];
  }

  /** Insertion adds exactly the new entry and moves no other. */
  lemma InsertContents(pool: seq<string>, order: nat, f: Flat, e: Entry) returns (at: nat)
    requires Shape(f)
    ensures at <= |Contents(f)|
    ensures Contents(Insert(pool, order, f, e)) == Contents(f)[..at] + [e] + Contents(f)[at..]
    ensures multiset(Contents(Insert(pool, order, f, e))) == multiset(Contents(f)) + multiset{e}
  {
    hide *;
    if f.leaves == [] {
      at := 0;
      InsertInEmpty(pool, order, f, e);
    } else {
      at := InsertSplices(pool, order, f, e);
    }
    SpliceMultiset(Contents(f), at, e);
  }
}
