/** Splitting a leaf, and changing the entries of one (src/core/btree.cpp): what happens to the shape of
    the tree and to its leaves and separators. */
module LeafSplit {
  import opened TreeShape

  /** Leaf n is child i of p, and r is a new node. */
  ghost predicate SplitsLeaf(t: Tree, n: Node, p: Node, r: Node, i: nat) {
    && Linked(t) && n in t.cells && p in t.cells && r !in t.cells
    && t.cells[n].leaf && |t.cells[n].keys| >= 2 && |t.cells[n].rows| == |t.cells[n].keys|
    && t.cells[n].parent == p && !t.cells[p].leaf
    && i < |t.cells[p].ch| == |t.cells[p].keys| + 1 && t.cells[p].ch[i] == n
    && t.spans[n].from < |t.leaves|
  }

  ghost function SplitLeafCell(t: Tree, n: Node, p: Node, r: Node, i: nat, x: Node): Cell
    requires SplitsLeaf(t, n, p, r, i) && x in t.cells.Keys + {r}
  {
    var c, pc := t.cells[n], t.cells[p];
    var mid := |c.keys| / 2;
    if x == n then c.(keys := c.keys[..mid], rows := c.rows[..mid], next := r)
    else if x == r then Cell(true, p, c.keys[mid..], c.rows[mid..], [], c.next)
    else if x == p then pc.(keys := InsertAt(pc.keys, i, c.keys[mid]), ch := InsertAt(pc.ch, i + 1, r))
    else t.cells[x]
  }

  /** Ranges of leaves, renumbered after a new leaf right of number q. */
  function Shift(q: nat, s: Span): Span {
    Span(if s.from > q then s.from + 1 else s.from, if s.to > q then s.to + 1 else s.to, s.height)
  }

  ghost function SplitLeafSpan(t: Tree, n: Node, r: Node, x: Node): Span
    requires Known(t) && n in t.cells && x in t.cells.Keys + {r}
  {
    var q := t.spans[n].from;
    if x == r then Span(q + 1, q + 2, 0) else if x == n then t.spans[n] else Shift(q, t.spans[x])
  }

  /** The upper half of leaf n moves to the new leaf r, chained in after n; the first key of r becomes
      the separator between them, in the parent and in the row of separators. */
  ghost function SplitLeaf(t: Tree, n: Node, p: Node, r: Node, i: nat): Tree
    requires SplitsLeaf(t, n, p, r, i)
  {
    var q := t.spans[n].from;
    Tree(map x | x in t.cells.Keys + {r} :: SplitLeafCell(t, n, p, r, i, x),
         map x | x in t.cells.Keys + {r} :: SplitLeafSpan(t, n, r, x),
         t.root, InsertAt(t.leaves, q + 1, r), InsertAt(t.seps, q, t.cells[n].keys[|t.cells[n].keys| / 2]))
  }

  lemma SplitLeafKnown(t: Tree, n: Node, p: Node, r: Node, i: nat)
    requires SplitsLeaf(t, n, p, r, i)
    ensures Known(SplitLeaf(t, n, p, r, i))
    ensures n != p && t.root != n && LeafNode(t, n) && InnerNode(t, p)
  {
    assert NodeOk(t, n) && NodeOk(t, p) && UpOk(t, n);
    var u := SplitLeaf(t, n, p, r, i);
    assert u.spans.Keys == u.cells.Keys == t.cells.Keys + {r};
  }

  /** A node other than n spans a range that either contains leaf q or not: never a part of it. */
  lemma OtherLeaf(t: Tree, n: Node, x: Node)
    requires Linked(t) && n in t.cells && x in t.cells && t.cells[n].leaf && t.cells[x].leaf && x != n
    ensures t.spans[x].from != t.spans[n].from
  {
    assert NodeOk(t, n) && NodeOk(t, x);
  }

  lemma SplitLeafNode(t: Tree, n: Node, p: Node, r: Node, i: nat, x: Node)
    requires SplitsLeaf(t, n, p, r, i) && x in t.cells.Keys + {r}
    requires x == r || t.cells[x].leaf
    requires Known(SplitLeaf(t, n, p, r, i))
    ensures NodeOk(SplitLeaf(t, n, p, r, i), x)
  {
    SplitLeafKnown(t, n, p, r, i);
    if x != r {
      assert NodeOk(t, x);
      if x != n { OtherLeaf(t, n, x); }
    }
  }

  /** A child of an inner node other than p keeps its place below it. */
  lemma SplitLeafChild(t: Tree, n: Node, p: Node, r: Node, i: nat, x: Node, j: nat)
    requires SplitsLeaf(t, n, p, r, i) && x in t.cells && !t.cells[x].leaf && j < |t.cells[x].ch|
    requires Known(SplitLeaf(t, n, p, r, i))
    ensures var y := t.cells[x].ch[j];
            && y in t.cells && IsChild(t, x, y) && IsChild(SplitLeaf(t, n, p, r, i), x, y)
            && (y != n ==> SplitLeaf(t, n, p, r, i).spans[y] == Shift(t.spans[n].from, t.spans[y]))
  {
    SplitLeafKnown(t, n, p, r, i);
    assert NodeOk(t, x);
    assert IsChild(t, x, t.cells[x].ch[j]);
  }

  lemma SplitLeafElsewhere(t: Tree, n: Node, p: Node, r: Node, i: nat, x: Node)
    requires SplitsLeaf(t, n, p, r, i) && x in t.cells && !t.cells[x].leaf && x != p
    requires Known(SplitLeaf(t, n, p, r, i))
    ensures NodeOk(SplitLeaf(t, n, p, r, i), x)
  {
    SplitLeafKnown(t, n, p, r, i);
    var u := SplitLeaf(t, n, p, r, i);
    var c := t.cells[x];
    assert NodeOk(t, x);
    forall j | 0 <= j < |c.ch|
      ensures IsChild(u, x, c.ch[j])
    {
      SplitLeafChild(t, n, p, r, i, x, j);
    }
    SplitLeafChild(t, n, p, r, i, x, 0);
    SplitLeafChild(t, n, p, r, i, x, |c.keys|);
    forall j | 0 <= j < |c.keys|
      ensures Meet(u, u.cells[x], j)
    {
      assert Meet(t, c, j);
      SplitLeafChild(t, n, p, r, i, x, j);
      SplitLeafChild(t, n, p, r, i, x, j + 1);
    }
  }

  lemma SplitLeafSibling(t: Tree, n: Node, p: Node, r: Node, i: nat, j: nat)
    requires SplitsLeaf(t, n, p, r, i) && j < |t.cells[p].ch| && j != i
    requires Known(SplitLeaf(t, n, p, r, i))
    ensures var y := t.cells[p].ch[j];
            && y in t.cells && y != n && y != r && IsChild(SplitLeaf(t, n, p, r, i), p, y)
            && SplitLeaf(t, n, p, r, i).spans[y] == Shift(t.spans[n].from, t.spans[y])
  {
    SplitLeafKnown(t, n, p, r, i);
    if i < j { ChildrenApart(t, p, i, j); } else { ChildrenApart(t, p, j, i); }
    SplitLeafChild(t, n, p, r, i, p, j);
  }

  /** The new key between n and r. */
  lemma SplitLeafMeetHere(t: Tree, n: Node, p: Node, r: Node, i: nat)
    requires SplitsLeaf(t, n, p, r, i) && Known(SplitLeaf(t, n, p, r, i))
    ensures Meet(SplitLeaf(t, n, p, r, i), SplitLeaf(t, n, p, r, i).cells[p], i)
  {
    SplitLeafKnown(t, n, p, r, i);
  }

  lemma SplitLeafMeetBefore(t: Tree, n: Node, p: Node, r: Node, i: nat, j: nat)
    requires SplitsLeaf(t, n, p, r, i) && j < i && Known(SplitLeaf(t, n, p, r, i))
    ensures Meet(SplitLeaf(t, n, p, r, i), SplitLeaf(t, n, p, r, i).cells[p], j)
  {
    SplitLeafKnown(t, n, p, r, i);
    assert Meet(t, t.cells[p], j);
    SplitLeafSibling(t, n, p, r, i, j);
    if j + 1 < i { SplitLeafSibling(t, n, p, r, i, j + 1); }
  }

  lemma SplitLeafMeetAfter(t: Tree, n: Node, p: Node, r: Node, i: nat, j: nat)
    requires SplitsLeaf(t, n, p, r, i) && i < j <= |t.cells[p].keys| && Known(SplitLeaf(t, n, p, r, i))
    ensures Meet(SplitLeaf(t, n, p, r, i), SplitLeaf(t, n, p, r, i).cells[p], j)
  {
    SplitLeafKnown(t, n, p, r, i);
    assert Meet(t, t.cells[p], j - 1);
    SplitLeafSibling(t, n, p, r, i, j);
    if j - 1 > i { SplitLeafSibling(t, n, p, r, i, j - 1); }
  }

  lemma SplitLeafParentMeet(t: Tree, n: Node, p: Node, r: Node, i: nat, j: nat)
    requires SplitsLeaf(t, n, p, r, i) && j <= |t.cells[p].keys|
    requires Known(SplitLeaf(t, n, p, r, i))
    requires var d := SplitLeaf(t, n, p, r, i).cells[p]; j < |d.keys| && |d.ch| == |d.keys| + 1
    ensures Meet(SplitLeaf(t, n, p, r, i), SplitLeaf(t, n, p, r, i).cells[p], j)
  {
    hide *;
    if j < i {
      SplitLeafMeetBefore(t, n, p, r, i, j);
    } else if j == i {
      SplitLeafMeetHere(t, n, p, r, i);
    } else {
      SplitLeafMeetAfter(t, n, p, r, i, j);
    }
  }

  lemma SplitLeafParentFrame(t: Tree, n: Node, p: Node, r: Node, i: nat)
    requires SplitsLeaf(t, n, p, r, i) && Known(SplitLeaf(t, n, p, r, i))
    ensures var u := SplitLeaf(t, n, p, r, i);
      && !u.cells[p].leaf && Framed(u, p) && u.cells[p].ch == InsertAt(t.cells[p].ch, i + 1, r)
      && |u.cells[p].keys| == |t.cells[p].keys| + 1
  {
    SplitLeafKnown(t, n, p, r, i);
    var pc := t.cells[p];
    assert IsChild(t, p, pc.ch[i]);
    ChildWithin(t, p, i);
    if i > 0 { SplitLeafSibling(t, n, p, r, i, 0); }
    if i < |pc.keys| { SplitLeafSibling(t, n, p, r, i, |pc.keys|); }
  }

  lemma SplitLeafParentChild(t: Tree, n: Node, p: Node, r: Node, i: nat, j: nat)
    requires SplitsLeaf(t, n, p, r, i) && Known(SplitLeaf(t, n, p, r, i)) && j <= |t.cells[p].ch|
    ensures IsChild(SplitLeaf(t, n, p, r, i), p, InsertAt(t.cells[p].ch, i + 1, r)[j])
  {
    SplitLeafKnown(t, n, p, r, i);
    assert IsChild(t, p, t.cells[p].ch[i]);
    if j != i && j != i + 1 {
      SplitLeafSibling(t, n, p, r, i, if j < i then j else j - 1);
    }
  }

  lemma SplitLeafParent(t: Tree, n: Node, p: Node, r: Node, i: nat)
    requires SplitsLeaf(t, n, p, r, i)
    requires Known(SplitLeaf(t, n, p, r, i))
    ensures NodeOk(SplitLeaf(t, n, p, r, i), p)
  {
    var u := SplitLeaf(t, n, p, r, i);
    var pc, d := t.cells[p], u.cells[p];
    SplitLeafParentFrame(t, n, p, r, i);
    assert |d.ch| == |pc.ch| + 1 && |pc.ch| == |pc.keys| + 1;
    hide *;
    forall j | 0 <= j < |d.ch|
      ensures IsChild(u, p, d.ch[j])
    {
      SplitLeafParentChild(t, n, p, r, i, j);
    }
    forall j | 0 <= j < |d.keys|
      ensures Meet(u, d, j)
    {
      SplitLeafParentMeet(t, n, p, r, i, j);
    }
    MakesInner(u, p);
  }

  lemma SplitLeafUp(t: Tree, n: Node, p: Node, r: Node, i: nat, x: Node)
    requires SplitsLeaf(t, n, p, r, i) && x in t.cells.Keys + {r}
    requires Known(SplitLeaf(t, n, p, r, i))
    ensures UpOk(SplitLeaf(t, n, p, r, i), x)
  {
    var u := SplitLeaf(t, n, p, r, i);
    SplitLeafKnown(t, n, p, r, i);
    var d := u.cells[p];
    assert d.ch[i + 1] == r;
    assert forall y | y in t.cells[p].ch :: y in d.ch by {
      assert t.cells[p].ch == t.cells[p].ch[..i + 1] + t.cells[p].ch[i + 1..];
    }
    if x != r {
      assert UpOk(t, x);
    }
  }

  lemma SplitLeafChain(t: Tree, n: Node, p: Node, r: Node, i: nat, k: nat)
    requires SplitsLeaf(t, n, p, r, i) && k <= |t.leaves|
    requires Known(SplitLeaf(t, n, p, r, i))
    ensures ChainOk(SplitLeaf(t, n, p, r, i), k)
  {
    SplitLeafKnown(t, n, p, r, i);
    var u, q := SplitLeaf(t, n, p, r, i), t.spans[n].from;
    assert u.leaves[k] == if k <= q then t.leaves[k] else if k == q + 1 then r else t.leaves[k - 1];
    if k < |t.leaves| {
      assert u.leaves[k + 1] == if k < q then t.leaves[k + 1] else if k == q then r else t.leaves[k];
    }
    if k <= q {
      assert ChainOk(t, k);
    } else if k == q + 1 {
      assert ChainOk(t, q);
    } else {
      assert ChainOk(t, k - 1);
    }
  }

  /** Splitting a leaf keeps the tree well linked. */
  lemma SplitLeafLinked(t: Tree, n: Node, p: Node, r: Node, i: nat)
    requires SplitsLeaf(t, n, p, r, i)
    ensures Linked(SplitLeaf(t, n, p, r, i))
  {
    var u := SplitLeaf(t, n, p, r, i);
    SplitLeafKnown(t, n, p, r, i);
    assert u.cells.Keys == t.cells.Keys + {r};
    assert t.spans[t.root].from == 0 && u.spans[u.root] == Shift(t.spans[n].from, t.spans[t.root]);
    assert |u.leaves| == |t.leaves| + 1 && u.spans[u.root].to == |u.leaves| && u.spans[u.root].from == 0;
    hide *;
    forall x | x in u.cells
      ensures NodeOk(u, x) && UpOk(u, x)
    {
      SplitLeafUp(t, n, p, r, i, x);
      if x == r || t.cells[x].leaf {
        SplitLeafNode(t, n, p, r, i, x);
      } else if x == p {
        SplitLeafParent(t, n, p, r, i);
      } else {
        SplitLeafElsewhere(t, n, p, r, i, x);
      }
    }
    forall k | 0 <= k < |u.leaves|
      ensures ChainOk(u, k)
    {
      SplitLeafChain(t, n, p, r, i, k);
    }
    MakesLinked(u);
  }
}
