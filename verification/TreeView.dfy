/** What a well-linked tree means: the flat index in its leaves, and how splits, descents and the sizes of
    nodes relate to it. */
module TreeView {
  import opened Values
  import opened FlatIndex
  import opened TreeShape
  import opened LeafSplit

  function Pairs(ks: seq<Value>, rs: seq<nat>): (es: Leaf)
    ensures |es| == if |ks| <= |rs| then |ks| else |rs|
    ensures forall i | 0 <= i < |es| :: es[i] == Entry(ks[i], rs[i])
  {
    seq(if |ks| <= |rs| then |ks| else |rs|, i requires 0 <= i < |ks| && i < |rs| => Entry(ks[i], rs[i]))
  }

  ghost function LeafEntries(t: Tree, i: nat): Leaf
    requires Linked(t) && i < |t.leaves|
  {
    assert ChainOk(t, i);
    Pairs(t.cells[t.leaves[i]].keys, t.cells[t.leaves[i]].rows)
  }

  ghost function FlatOf(t: Tree): (f: Flat)
    requires Linked(t)
    ensures Shape(f) && |f.leaves| == |t.leaves| > 0 && f.seps == t.seps
  {
    Flat(seq(|t.leaves|, i requires 0 <= i < |t.leaves| => LeafEntries(t, i)), t.seps)
  }

  lemma LeafAt(t: Tree, n: Node)
    requires Linked(t) && n in t.cells && t.cells[n].leaf
    ensures var q := t.spans[n].from;
            && q < |t.leaves| && t.leaves[q] == n && LeafEntries(t, q) == Pairs(t.cells[n].keys, t.cells[n].rows)
            && |t.cells[n].keys| == |t.cells[n].rows| && FlatOf(t).leaves[q] == LeafEntries(t, q)
  {
    assert NodeOk(t, n);
  }

  // ----- changing the entries of a leaf

  ghost function Rewrite(t: Tree, n: Node, ks: seq<Value>, rs: seq<nat>): Tree
    requires n in t.cells
  {
    t.(cells := t.cells[n := t.cells[n].(keys := ks, rows := rs)])
  }

  lemma RewriteNode(t: Tree, n: Node, ks: seq<Value>, rs: seq<nat>, x: Node)
    requires Linked(t) && n in t.cells && t.cells[n].leaf && |ks| == |rs| && x in t.cells
    ensures Known(Rewrite(t, n, ks, rs)) && NodeOk(Rewrite(t, n, ks, rs), x) && UpOk(Rewrite(t, n, ks, rs), x)
  {
    var u := Rewrite(t, n, ks, rs);
    var c := t.cells[x];
    assert NodeOk(t, x) && UpOk(t, x) && NodeOk(t, n);
    if !c.leaf {
      forall i | 0 <= i < |c.ch|
        ensures IsChild(u, x, c.ch[i])
      {
        assert IsChild(t, x, c.ch[i]);
      }
      forall i | 0 <= i < |c.keys|
        ensures Meet(u, c, i)
      {
        assert Meet(t, c, i);
      }
    }
  }

  lemma RewriteChain(t: Tree, n: Node, ks: seq<Value>, rs: seq<nat>)
    requires Linked(t) && n in t.cells && t.cells[n].leaf && Known(Rewrite(t, n, ks, rs))
    ensures forall i {:trigger ChainOk(Rewrite(t, n, ks, rs), i)} | 0 <= i < |t.leaves| :: ChainOk(Rewrite(t, n, ks, rs), i)
  {
    forall i | 0 <= i < |t.leaves|
      ensures ChainOk(Rewrite(t, n, ks, rs), i)
    {
      assert ChainOk(t, i);
    }
  }

  lemma RewriteWell(t: Tree, n: Node, ks: seq<Value>, rs: seq<nat>)
    requires Linked(t) && n in t.cells && t.cells[n].leaf && |ks| == |rs|
    ensures Linked(Rewrite(t, n, ks, rs))
  {
    var u := Rewrite(t, n, ks, rs);
    RewriteNode(t, n, ks, rs, n);
    assert u.spans[u.root].from == 0 && u.spans[u.root].to == |u.leaves| == |t.leaves| && u.cells.Keys == t.cells.Keys;
    hide *;
    forall x | x in u.cells
      ensures NodeOk(u, x) && UpOk(u, x)
    {
      assert x in t.cells;
      RewriteNode(t, n, ks, rs, x);
    }
    RewriteChain(t, n, ks, rs);
    MakesLinked(u);
  }

  lemma RewriteLinked(t: Tree, n: Node, ks: seq<Value>, rs: seq<nat>)
    requires Linked(t) && n in t.cells && t.cells[n].leaf && |ks| == |rs|
    ensures Linked(Rewrite(t, n, ks, rs))
    ensures var q := t.spans[n].from;
            q < |t.leaves| &&
            FlatOf(Rewrite(t, n, ks, rs)) == Flat(FlatOf(t).leaves[q := Pairs(ks, rs)], t.seps)
  {
    var u := Rewrite(t, n, ks, rs);
    RewriteWell(t, n, ks, rs);
    LeafAt(t, n);
    var q := t.spans[n].from;
    hide NodeOk, UpOk;
    forall i | 0 <= i < |u.leaves|
      ensures LeafEntries(u, i) == if i == q then Pairs(ks, rs) else LeafEntries(t, i)
    {
      assert ChainOk(t, i) && ChainOk(t, q);
    }
  }

  // ----- splits

  lemma GrowRootFlat(t: Tree, r: Node)
    requires Linked(t) && r !in t.cells && Linked(GrowRoot(t, r))
    ensures FlatOf(GrowRoot(t, r)) == FlatOf(t)
  {
    var u := GrowRoot(t, r);
    forall i | 0 <= i < |t.leaves|
      ensures LeafEntries(u, i) == LeafEntries(t, i)
    {
      assert ChainOk(t, i);
    }
  }

  /** Splitting an inner node does not touch the flat index. */
  lemma SplitInnerFlat(t: Tree, n: Node, p: Node, r: Node, i: nat)
    requires SplitsInner(t, n, p, r, i) && Linked(SplitInner(t, n, p, r, i))
    ensures FlatOf(SplitInner(t, n, p, r, i)) == FlatOf(t)
  {
    var u := SplitInner(t, n, p, r, i);
    forall k | 0 <= k < |t.leaves|
      ensures LeafEntries(u, k) == LeafEntries(t, k)
    {
      assert ChainOk(t, k);
    }
  }

  /** Splitting a leaf splits it in the flat index, at the same place and with the same separator. */
  lemma SplitLeafFlat(t: Tree, n: Node, p: Node, r: Node, i: nat, order: nat)
    requires SplitsLeaf(t, n, p, r, i) && Linked(SplitLeaf(t, n, p, r, i)) && order < |t.cells[n].keys|
    ensures var q := t.spans[n].from;
            q < |t.leaves| && LeafEntries(t, q) != [] &&
            FlatOf(SplitLeaf(t, n, p, r, i)) == Put(order, FlatOf(t), q, LeafEntries(t, q))
  {
    var u := SplitLeaf(t, n, p, r, i);
    var q := t.spans[n].from;
    LeafAt(t, n);
    SplitLeafKnown(t, n, p, r, i);
    var f, g := FlatOf(t), FlatOf(u);
    var leaf := f.leaves[q];
    var mid := |leaf| / 2;
    forall k | 0 <= k < |u.leaves|
      ensures g.leaves[k] == Spliced(f.leaves, q, leaf[..mid], leaf[mid..], k)
    {
      SplitLeafEntries(t, n, p, r, i, k);
    }
    SplicePair(f.leaves, q, leaf[..mid], leaf[mid..], g.leaves);
  }

  /** Element k of s with its element q replaced by a and b. */
  function Spliced<T>(s: seq<T>, q: nat, a: T, b: T, k: nat): T
    requires q < |s| && k <= |s|
  {
    if k < q then s[k] else if k == q then a else if k == q + 1 then b else s[k - 1]
  }

  lemma SplicePair<T>(s: seq<T>, q: nat, a: T, b: T, g: seq<T>)
    requires q < |s| && |g| == |s| + 1
    requires forall k | 0 <= k < |g| :: g[k] == Spliced(s, q, a, b, k)
    ensures g == s[..q] + [a, b] + s[q + 1..]
  {
  }

  lemma SplitLeafEntries(t: Tree, n: Node, p: Node, r: Node, i: nat, k: nat)
    requires SplitsLeaf(t, n, p, r, i) && Linked(SplitLeaf(t, n, p, r, i)) && k <= |t.leaves|
    ensures var q := t.spans[n].from;
            var leaf := LeafEntries(t, q);
            FlatOf(SplitLeaf(t, n, p, r, i)).leaves[k] ==
              Spliced(FlatOf(t).leaves, q, leaf[..|leaf| / 2], leaf[|leaf| / 2..], k)
  {
    var u := SplitLeaf(t, n, p, r, i);
    var q := t.spans[n].from;
    LeafAt(t, n);
    SplitLeafKnown(t, n, p, r, i);
    assert FlatOf(u).leaves[k] == LeafEntries(u, k);
    if k < q {
      assert ChainOk(t, k);
    } else if k > q + 1 {
      assert ChainOk(t, k - 1);
    }
  }

  // ----- descending

  /** k belongs in the range of leaves that node n spans. */
  ghost predicate Brackets(pool: seq<string>, t: Tree, n: Node, k: Value)
    requires Known(t) && n in t.cells
  {
    var s := t.spans[n];
    && s.from < s.to <= |t.leaves|
    && (s.from > 0 ==> Cmp(pool, t.seps[s.from - 1], k) <= 0)
    && (s.to <= |t.seps| ==> Cmp(pool, t.seps[s.to - 1], k) > 0)
  }

  /** One step down: the child after the keys that are at most k still brackets it. */
  lemma DescendStep(pool: seq<string>, t: Tree, n: Node, k: Value)
    requires Linked(t) && n in t.cells && !t.cells[n].leaf && Brackets(pool, t, n, k)
    ensures var c := t.cells[n];
            var i := Route(pool, c.keys, k);
            && i < |c.ch| && IsChild(t, n, c.ch[i]) && Brackets(pool, t, c.ch[i], k)
  {
    hide Cmp, Route;
    var c := t.cells[n];
    var i := Route(pool, c.keys, k);
    assert NodeOk(t, n);
    ChildWithin(t, n, i);
    assert IsChild(t, n, c.ch[i]);
    if i > 0 {
      assert Meet(t, c, i - 1);
    } else {
      assert t.spans[c.ch[0]].from == t.spans[n].from;
    }
    if i < |c.keys| {
      assert Meet(t, c, i);
    } else {
      assert t.spans[c.ch[i]].to == t.spans[n].to;
    }
  }

  /** The leaf that brackets k is the one the flat search routes to. */
  lemma DescendEnds(pool: seq<string>, t: Tree, n: Node, k: Value)
    requires Linked(t) && n in t.cells && t.cells[n].leaf && Brackets(pool, t, n, k) && Ascending(pool, t.seps)
    ensures t.spans[n].from == Route(pool, t.seps, k)
  {
    assert NodeOk(t, n);
    RouteUnique(pool, t.seps, k, t.spans[n].from);
  }

  /** The children of a node are nodes of the tree, below it and so neither it nor above it. */
  lemma ChildrenBelow(t: Tree, n: Node)
    requires Linked(t) && n in t.cells && !t.cells[n].leaf
    ensures forall x | x in t.cells[n].ch :: x in t.cells && x != n && x != t.cells[n].parent
    ensures t.cells[n].parent != n
  {
    assert NodeOk(t, n) && UpOk(t, n);
    var c := t.cells[n];
    forall x | x in c.ch
      ensures x in t.cells && x != n && x != c.parent
    {
      var j: nat :| j < |c.ch| && c.ch[j] == x;
      assert IsChild(t, n, c.ch[j]);
      if c.parent != null { ParentAbove(t, n); }
    }
    if c.parent != null { ParentAbove(t, n); }
  }

  lemma ParentAbove(t: Tree, n: Node)
    requires Linked(t) && n in t.cells && t.cells[n].parent != null
    ensures var p := t.cells[n].parent;
            p in t.cells && t.spans[p].height == t.spans[n].height + 1 && !t.cells[p].leaf && InnerNode(t, p)
  {
    assert UpOk(t, n);
    var p := t.cells[n].parent;
    assert NodeOk(t, p);
    var j: nat :| j < |t.cells[p].ch| && t.cells[p].ch[j] == n;
    assert IsChild(t, p, t.cells[p].ch[j]);
  }

  // ----- sizes

  /** No node but possibly `over` holds more than `order` keys. */
  ghost predicate Capped(t: Tree, order: nat, over: Node?) {
    forall n | n in t.cells && n != over :: |t.cells[n].keys| <= order
  }

  /** Inner nodes hold a key, and those other than the root and `low` at least half the order. */
  ghost predicate Filled(t: Tree, order: nat, low: Node?) {
    forall n | n in t.cells && !t.cells[n].leaf && n != low ::
      |t.cells[n].keys| >= if n == t.root then 1 else order / 2
  }

  lemma GrowRootSizes(t: Tree, r: Node, order: nat)
    requires Linked(t) && r !in t.cells && Capped(t, order, t.root) && Filled(t, order, null)
    requires t.cells[t.root].leaf || |t.cells[t.root].keys| >= order / 2
    ensures Capped(GrowRoot(t, r), order, t.root) && Filled(GrowRoot(t, r), order, r)
  {
  }

  /** Splitting the overfull node moves the overflow, if there is any, to its parent. */
  lemma SplitInnerSizes(t: Tree, n: Node, p: Node, r: Node, i: nat, order: nat)
    requires SplitsInner(t, n, p, r, i) && order >= 2 && |t.cells[n].keys| == order + 1 && n != t.root
    requires Capped(t, order, n) && Filled(t, order, p)
    requires |t.cells[p].keys| + 1 >= if p == t.root then 1 else order / 2
    ensures Capped(SplitInner(t, n, p, r, i), order, p) && Filled(SplitInner(t, n, p, r, i), order, null)
    ensures |SplitInner(t, n, p, r, i).cells[p].keys| == |t.cells[p].keys| + 1 <= order + 1
  {
    hide Linked;
  }

  lemma SplitLeafSizes(t: Tree, n: Node, p: Node, r: Node, i: nat, order: nat)
    requires SplitsLeaf(t, n, p, r, i) && order >= 2 && |t.cells[n].keys| == order + 1
    requires Capped(t, order, n) && Filled(t, order, p) && p != n
    requires |t.cells[p].keys| + 1 >= if p == t.root then 1 else order / 2
    ensures Capped(SplitLeaf(t, n, p, r, i), order, p) && Filled(SplitLeaf(t, n, p, r, i), order, null)
    ensures |SplitLeaf(t, n, p, r, i).cells[p].keys| == |t.cells[p].keys| + 1 <= order + 1
  {
    hide Linked;
  }

  function Power(b: nat, e: nat): nat {
    if e == 0 then 1 else b * Power(b, e - 1)
  }

  lemma MulMonotone(a: nat, b: nat, c: nat)
    requires a <= b
    ensures a * c <= b * c
  {
  }

  /** The first i children of n span at least i times as many leaves as one child must. */
  lemma {:induction false} ChildrenSpan(t: Tree, n: Node, i: nat, least: nat)
    requires Known(t) && n in t.cells && InnerNode(t, n) && 0 < i <= |t.cells[n].ch|
    requires forall j | 0 <= j < i :: t.cells[n].ch[j] in t.cells &&
               t.spans[t.cells[n].ch[j]].to >= t.spans[t.cells[n].ch[j]].from + least
    ensures t.spans[t.cells[n].ch[i - 1]].to >= t.spans[n].from + i * least
  {
    if i > 1 {
      ChildrenSpan(t, n, i - 1, least);
      assert Meet(t, t.cells[n], i - 2);
    }
  }

  /** A node other than the root, h levels above the leaves, spans at least (floor(order/2)+1)^h leaves. */
  lemma {:induction false} SpanGrows(t: Tree, order: nat, n: Node)
    requires Linked(t) && Filled(t, order, null) && n in t.cells && n != t.root
    ensures t.spans[n].to >= t.spans[n].from + Power(order / 2 + 1, t.spans[n].height)
    decreases t.spans[n].height
  {
    var c, s := t.cells[n], t.spans[n];
    assert NodeOk(t, n);
    if !c.leaf {
      var least := Power(order / 2 + 1, s.height - 1);
      ChildrenGrow(t, order, n);
      ChildrenSpan(t, n, |c.ch|, least);
      assert |c.ch| >= order / 2 + 1;
      MulMonotone(order / 2 + 1, |c.ch|, least);
    }
  }

  lemma {:induction false} ChildrenGrow(t: Tree, order: nat, n: Node)
    requires Linked(t) && Filled(t, order, null) && n in t.cells && !t.cells[n].leaf && InnerNode(t, n)
    ensures forall j | 0 <= j < |t.cells[n].ch| :: t.cells[n].ch[j] in t.cells &&
              t.spans[t.cells[n].ch[j]].to >=
                t.spans[t.cells[n].ch[j]].from + Power(order / 2 + 1, t.spans[n].height - 1)
    decreases t.spans[n].height, 0
  {
    var c := t.cells[n];
    forall j | 0 <= j < |c.ch|
      ensures c.ch[j] in t.cells
      ensures t.spans[c.ch[j]].to >= t.spans[c.ch[j]].from + Power(order / 2 + 1, t.spans[n].height - 1)
    {
      assert IsChild(t, n, c.ch[j]);
      assert UpOk(t, c.ch[j]);
      SpanGrows(t, order, c.ch[j]);
    }
  }

  /** The height is logarithmic in the number of leaves. */
  lemma HeightBound(t: Tree, order: nat)
    requires Linked(t) && Filled(t, order, null) && t.spans[t.root].height > 0
    ensures 2 * Power(order / 2 + 1, t.spans[t.root].height - 1) <= |t.leaves|
  {
    var c := t.cells[t.root];
    assert NodeOk(t, t.root);
    ChildrenGrow(t, order, t.root);
    var least := Power(order / 2 + 1, t.spans[t.root].height - 1);
    ChildrenSpan(t, t.root, |c.ch|, least);
    MulMonotone(2, |c.ch|, least);
  }

  // ----- reading the tree from the root

  /** The leaves below n, found by walking down from it. */
  ghost function Frontier(t: Tree, n: Node): seq<Node>
    requires Linked(t) && n in t.cells
    decreases t.spans[n].height, |t.cells[n].ch| + 1
  {
    assert NodeOk(t, n);
    if t.cells[n].leaf then [n] else FrontierOf(t, n, |t.cells[n].ch|)
  }

  /** The leaves below the first i children of n. */
  ghost function FrontierOf(t: Tree, n: Node, i: nat): seq<Node>
    requires Linked(t) && n in t.cells && InnerNode(t, n) && i <= |t.cells[n].ch|
    decreases t.spans[n].height, i
  {
    if i == 0 then []
    else
      assert IsChild(t, n, t.cells[n].ch[i - 1]);
      FrontierOf(t, n, i - 1) + Frontier(t, t.cells[n].ch[i - 1])
  }

  /** Walking down from a node finds exactly the stretch of the chain that it spans, in order; from the
      root, the whole chain. So all leaves are at one depth and the chain visits each once. */
  lemma {:induction false} FrontierIsChain(t: Tree, n: Node)
    requires Linked(t) && n in t.cells
    ensures t.spans[n].from <= t.spans[n].to <= |t.leaves|
    ensures Frontier(t, n) == t.leaves[t.spans[n].from..t.spans[n].to]
    ensures Frontier(t, t.root) == t.leaves || n != t.root
    decreases t.spans[n].height, |t.cells[n].ch| + 1
  {
    assert NodeOk(t, n);
    if !t.cells[n].leaf {
      FrontierOfIsChain(t, n, |t.cells[n].ch|);
    }
  }

  lemma {:induction false} FrontierOfIsChain(t: Tree, n: Node, i: nat)
    requires Linked(t) && n in t.cells && InnerNode(t, n) && 0 < i <= |t.cells[n].ch|
    ensures var x := t.cells[n].ch[i - 1];
            && x in t.spans && t.spans[n].from <= t.spans[x].to <= |t.leaves|
            && FrontierOf(t, n, i) == t.leaves[t.spans[n].from..t.spans[x].to]
    decreases t.spans[n].height, i
  {
    var x := t.cells[n].ch[i - 1];
    assert IsChild(t, n, x);
    ChildWithin(t, n, i - 1);
    FrontierIsChain(t, x);
    if i == 1 {
      assert FrontierOf(t, n, 0) == [];
    } else {
      FrontierOfIsChain(t, n, i - 1);
      assert Meet(t, t.cells[n], i - 2);
    }
  }

  /** Every key below child i of an inner node lies between the node's keys on either side of it. */
  lemma SeparatorsBound(pool: seq<string>, t: Tree, n: Node, i: nat, l: nat, x: nat)
    requires Linked(t) && Sorted(pool, FlatOf(t)) && n in t.cells && !t.cells[n].leaf && i < |t.cells[n].ch|
    requires t.cells[n].ch[i] in t.cells && t.spans[t.cells[n].ch[i]].from <= l < t.spans[t.cells[n].ch[i]].to
    requires l < |t.leaves| && x < |LeafEntries(t, l)|
    ensures 0 < i <= |t.cells[n].keys| ==> Cmp(pool, t.cells[n].keys[i - 1], LeafEntries(t, l)[x].key) <= 0
    ensures i < |t.cells[n].keys| ==> Cmp(pool, LeafEntries(t, l)[x].key, t.cells[n].keys[i]) <= 0
  {
    var c := t.cells[n];
    var e := LeafEntries(t, l)[x].key;
    assert NodeOk(t, n);
    assert LeafOk(pool, t.seps, l, FlatOf(t).leaves[l]);
    assert Fits(pool, t.seps, l, e);
    hide Cmp, Ascending;
    if 0 < i <= |c.keys| {
      assert Meet(t, c, i - 1);
      var m := t.spans[c.ch[i]].from;
      LeafBelow(pool, t.seps, m - 1, l - 1);
      CmpTransitive(pool, c.keys[i - 1], t.seps[l - 1], e);
    }
    if i < |c.keys| {
      assert Meet(t, c, i);
      var m := t.spans[c.ch[i]].to;
      LeafBelow(pool, t.seps, l, m - 1);
      CmpTransitive(pool, e, t.seps[l], c.keys[i]);
    }
  }

  lemma LeafBelow(pool: seq<string>, seps: seq<Value>, i: nat, j: nat)
    requires Ascending(pool, seps) && i <= j < |seps|
    ensures Cmp(pool, seps[i], seps[j]) <= 0
  {
    CmpMirror(pool, seps[i], seps[i]);
  }
}
