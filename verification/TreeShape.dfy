/** The shape of a B+ tree on the heap (src/core/btree.cpp), and what the two kinds of split do to it.
    A `Tree` is a snapshot of all nodes' fields together with the leaves from left to right, the
    separators between them, and the range of leaves each node spans. */
module TreeShape {
  import opened Values

  class Node {
    var leaf: bool
    var parent: Node?
    var keys: seq<Value>
    var rows: seq<nat>
    var ch: seq<Node>
    var next: Node?

    constructor (leaf: bool)
      ensures this.leaf == leaf && parent == null && keys == [] && rows == [] && ch == [] && next == null
    {
      this.leaf, parent, keys, rows, ch, next := leaf, null, [], [], [], null;
    }
  }

  /** The fields of one node. */
  datatype Cell = Cell(leaf: bool, parent: Node?, keys: seq<Value>, rows: seq<nat>, ch: seq<Node>, next: Node?)

  /** The node's subtree holds the leaves numbered from..to-1, `height` levels below it. */
  datatype Span = Span(from: nat, to: nat, height: nat)

  datatype Tree = Tree(cells: map<Node, Cell>, spans: map<Node, Span>, root: Node,
                       leaves: seq<Node>, seps: seq<Value>)

  function InsertAt<T>(s: seq<T>, i: nat, x: T): seq<T>
    requires i <= |s|
  {
    s[..i] + [x] + s[i..]
  }

  // ----- the invariant

  ghost predicate Known(t: Tree) {
    t.spans.Keys == t.cells.Keys && t.root in t.cells && |t.leaves| == |t.seps| + 1
  }

  ghost predicate LeafNode(t: Tree, n: Node)
    requires Known(t) && n in t.cells
  {
    var c, s := t.cells[n], t.spans[n];
    && c.ch == [] && |c.rows| == |c.keys| && s.height == 0
    && s.to == s.from + 1 && s.from < |t.leaves| && t.leaves[s.from] == n
  }

  ghost predicate IsChild(t: Tree, n: Node, x: Node)
    requires Known(t) && n in t.cells
  {
    && x in t.cells && t.cells[x].parent == n
    && t.spans[x].height + 1 == t.spans[n].height && t.spans[x].from < t.spans[x].to
  }

  /** Children i and i+1 meet, and key i is the separator between the leaves on either side. */
  ghost predicate Meet(t: Tree, c: Cell, i: nat)
    requires Known(t) && i < |c.keys| && |c.ch| == |c.keys| + 1
  {
    && c.ch[i] in t.cells && c.ch[i + 1] in t.cells
    && var m := t.spans[c.ch[i]].to;
       m == t.spans[c.ch[i + 1]].from && 0 < m <= |t.seps| && c.keys[i] == t.seps[m - 1]
  }

  ghost predicate StartsAt(t: Tree, x: Node, from: nat)
    requires Known(t)
  {
    x in t.cells && t.spans[x].from == from
  }

  ghost predicate EndsAt(t: Tree, x: Node, to: nat)
    requires Known(t)
  {
    x in t.cells && t.spans[x].to == to
  }

  /** n keys and n+1 children, of which the outer ones begin and end with the node. */
  ghost predicate Framed(t: Tree, n: Node)
    requires Known(t) && n in t.cells
  {
    var c, s := t.cells[n], t.spans[n];
    && |c.ch| == |c.keys| + 1 && c.rows == [] && c.next == null
    && s.height > 0 && s.from < s.to <= |t.leaves|
    && StartsAt(t, c.ch[0], s.from) && EndsAt(t, c.ch[|c.keys|], s.to)
  }

  /** The children, all one level lower, share out the node's leaves from left to right. */
  ghost predicate InnerNode(t: Tree, n: Node)
    requires Known(t) && n in t.cells
  {
    var c := t.cells[n];
    && Framed(t, n)
    && (forall i {:trigger IsChild(t, n, c.ch[i])} | 0 <= i < |c.ch| :: IsChild(t, n, c.ch[i]))
    && (forall i {:trigger Meet(t, c, i)} | 0 <= i < |c.keys| :: Meet(t, c, i))
  }

  ghost predicate NodeOk(t: Tree, n: Node)
    requires Known(t) && n in t.cells
  {
    if t.cells[n].leaf then LeafNode(t, n) else InnerNode(t, n)
  }

  /** Only the root has no parent, and a parent lists its child. */
  ghost predicate UpOk(t: Tree, n: Node)
    requires Known(t) && n in t.cells
  {
    var p := t.cells[n].parent;
    && (p == null <==> n == t.root)
    && (p != null ==> p in t.cells && !t.cells[p].leaf && n in t.cells[p].ch)
  }

  ghost predicate ChainOk(t: Tree, i: nat)
    requires Known(t) && i < |t.leaves|
  {
    var l := t.leaves[i];
    && l in t.cells && t.cells[l].leaf && t.spans[l].from == i
    && t.cells[l].next == if i + 1 < |t.leaves| then t.leaves[i + 1] else null
  }

  ghost predicate Linked(t: Tree) {
    && Known(t)
    && (forall n {:trigger NodeOk(t, n)} | n in t.cells :: NodeOk(t, n))
    && (forall n {:trigger UpOk(t, n)} | n in t.cells :: UpOk(t, n))
    && (forall i {:trigger ChainOk(t, i)} | 0 <= i < |t.leaves| :: ChainOk(t, i))
    && t.spans[t.root].from == 0 && t.spans[t.root].to == |t.leaves|
  }

  lemma MakesInner(t: Tree, n: Node)
    requires Known(t) && n in t.cells && !t.cells[n].leaf && Framed(t, n)
    requires var c := t.cells[n]; |c.ch| == |c.keys| + 1
    requires forall i {:trigger t.cells[n].ch[i]} | 0 <= i < |t.cells[n].ch| :: IsChild(t, n, t.cells[n].ch[i])
    requires forall i {:trigger Meet(t, t.cells[n], i)} | 0 <= i < |t.cells[n].keys| :: Meet(t, t.cells[n], i)
    ensures NodeOk(t, n)
  {
  }

  lemma MakesLinked(t: Tree)
    requires Known(t) && t.spans[t.root].from == 0 && t.spans[t.root].to == |t.leaves|
    requires forall n {:trigger NodeOk(t, n)} | n in t.cells :: NodeOk(t, n)
    requires forall n {:trigger UpOk(t, n)} | n in t.cells :: UpOk(t, n)
    requires forall i {:trigger ChainOk(t, i)} | 0 <= i < |t.leaves| :: ChainOk(t, i)
    ensures Linked(t)
  {
  }

  /** The children of a node lie side by side, so they are all different. */
  lemma {:induction false} ChildrenApart(t: Tree, n: Node, i: nat, j: nat)
    requires Known(t) && n in t.cells && InnerNode(t, n) && i < j < |t.cells[n].ch|
    ensures t.cells[n].ch[i] in t.cells && t.cells[n].ch[j] in t.cells
    ensures t.spans[t.cells[n].ch[i]].to <= t.spans[t.cells[n].ch[j]].from
    ensures t.cells[n].ch[i] != t.cells[n].ch[j]
    decreases j - i
  {
    var c := t.cells[n];
    assert IsChild(t, n, c.ch[i]);
    assert IsChild(t, n, c.ch[j]);
    if i + 1 < j {
      ChildrenApart(t, n, i, j - 1);
      assert IsChild(t, n, c.ch[j - 1]);
    }
    assert Meet(t, c, j - 1);
  }

  /** A child's leaves are among its parent's. */
  lemma ChildWithin(t: Tree, n: Node, i: nat)
    requires Known(t) && n in t.cells && InnerNode(t, n) && i < |t.cells[n].ch|
    ensures var x := t.cells[n].ch[i];
            x in t.spans && t.spans[n].from <= t.spans[x].from < t.spans[x].to <= t.spans[n].to
  {
    var c := t.cells[n];
    var x := c.ch[i];
    assert IsChild(t, n, x);
    if i > 0 { ChildrenApart(t, n, 0, i); assert IsChild(t, n, c.ch[0]); }
    if i < |c.keys| { ChildrenApart(t, n, i, |c.keys|); assert IsChild(t, n, c.ch[|c.keys|]); }
  }

  // ----- a root above the root

  /** The tree with a new root, still without keys, over the old one. */
  function GrowRoot(t: Tree, r: Node): Tree
    requires t.root in t.cells && t.root in t.spans
  {
    Tree(t.cells[t.root := t.cells[t.root].(parent := r)][r := Cell(false, null, [], [], [t.root], null)],
         t.spans[r := Span(0, |t.leaves|, t.spans[t.root].height + 1)], r, t.leaves, t.seps)
  }

  lemma GrowRootTop(t: Tree, r: Node)
    requires Linked(t) && r !in t.cells && Known(GrowRoot(t, r))
    ensures NodeOk(GrowRoot(t, r), r) && UpOk(GrowRoot(t, r), r)
  {
    assert NodeOk(t, t.root);
    assert IsChild(GrowRoot(t, r), r, t.root);
  }

  lemma GrowRootUp(t: Tree, r: Node, n: Node)
    requires Linked(t) && r !in t.cells && n in t.cells && Known(GrowRoot(t, r))
    ensures UpOk(GrowRoot(t, r), n)
  {
    assert UpOk(t, n);
  }

  lemma GrowRootChain(t: Tree, r: Node, i: nat)
    requires Linked(t) && r !in t.cells && Known(GrowRoot(t, r)) && i < |t.leaves|
    ensures ChainOk(GrowRoot(t, r), i)
  {
    assert ChainOk(t, i);
  }

  lemma GrowRootLinked(t: Tree, r: Node)
    requires Linked(t) && r !in t.cells
    ensures Linked(GrowRoot(t, r))
  {
    var u := GrowRoot(t, r);
    assert u.spans.Keys == u.cells.Keys == t.cells.Keys + {r};
    assert Known(u) && u.leaves == t.leaves && u.spans[u.root].from == 0 && u.spans[u.root].to == |u.leaves|;
    hide *;
    forall n | n in u.cells
      ensures NodeOk(u, n) && UpOk(u, n)
    {
      if n == r {
        GrowRootTop(t, r);
      } else {
        assert n in t.cells;
        GrowRootNode(t, r, n);
        GrowRootUp(t, r, n);
      }
    }
    forall i | 0 <= i < |u.leaves|
      ensures ChainOk(u, i)
    {
      GrowRootChain(t, r, i);
    }
    MakesLinked(u);
  }

  lemma GrowRootNode(t: Tree, r: Node, n: Node)
    requires Linked(t) && r !in t.cells && n in t.cells
    requires Known(GrowRoot(t, r))
    ensures NodeOk(GrowRoot(t, r), n)
  {
    var u := GrowRoot(t, r);
    assert NodeOk(t, n);
    var c := u.cells[n];
    if !c.leaf {
      forall i | 0 <= i < |c.ch|
        ensures IsChild(u, n, c.ch[i])
      {
        assert IsChild(t, n, c.ch[i]);
        assert UpOk(t, c.ch[i]);
      }
      forall i | 0 <= i < |c.keys|
        ensures Meet(u, c, i)
      {
        assert Meet(t, t.cells[n], i);
      }
    }
  }

  // ----- splitting an inner node

  /** n is child i of p, both inner nodes, and r is a new node. */
  ghost predicate Divisible(t: Tree, n: Node, p: Node, r: Node, i: nat) {
    && Known(t) && n in t.cells && p in t.cells && r !in t.cells && n != p
    && |t.cells[n].keys| >= 2 && |t.cells[n].ch| == |t.cells[n].keys| + 1
    && i < |t.cells[p].ch| == |t.cells[p].keys| + 1
    && t.cells[n].ch[|t.cells[n].keys| / 2] in t.cells
  }

  ghost function SplitInnerCell(t: Tree, n: Node, p: Node, r: Node, i: nat, x: Node): Cell
    requires Divisible(t, n, p, r, i) && x in t.cells.Keys + {r}
  {
    var c, pc := t.cells[n], t.cells[p];
    var mid := |c.keys| / 2;
    if x == n then c.(keys := c.keys[..mid], ch := c.ch[..mid + 1])
    else if x == r then Cell(false, p, c.keys[mid + 1..], [], c.ch[mid + 1..], null)
    else if x == p then pc.(keys := InsertAt(pc.keys, i, c.keys[mid]), ch := InsertAt(pc.ch, i + 1, r))
    else if x in c.ch[mid + 1..] then t.cells[x].(parent := r)
    else t.cells[x]
  }

  /** Inner node n, child i of p, keeps the keys before the middle one; those after it go to the new
      node r, and the middle key moves up to separate the two. */
  ghost function SplitInner(t: Tree, n: Node, p: Node, r: Node, i: nat): Tree
    requires Divisible(t, n, p, r, i)
  {
    var cut := t.spans[t.cells[n].ch[|t.cells[n].keys| / 2]].to;
    Tree(map x | x in t.cells.Keys + {r} :: SplitInnerCell(t, n, p, r, i, x),
         t.spans[n := t.spans[n].(to := cut)][r := Span(cut, t.spans[n].to, t.spans[n].height)],
         t.root, t.leaves, t.seps)
  }

  /** The situation in which the cascade splits an inner node below p. */
  ghost predicate SplitsInner(t: Tree, n: Node, p: Node, r: Node, i: nat) {
    && Divisible(t, n, p, r, i) && Linked(t)
    && !t.cells[n].leaf && !t.cells[p].leaf && t.cells[n].parent == p && t.cells[p].ch[i] == n
  }

  /** Which nodes are which: the children of n are neither n, nor r, nor p. */
  lemma ChildDistinct(t: Tree, n: Node, p: Node, r: Node, i: nat, j: nat)
    requires SplitsInner(t, n, p, r, i) && j < |t.cells[n].ch|
    ensures var x := t.cells[n].ch[j];
            x in t.cells && x != n && x != r && x != p && t.cells[x].parent == n && IsChild(t, n, x)
  {
    assert NodeOk(t, n) && NodeOk(t, p);
    assert IsChild(t, n, t.cells[n].ch[j]);
    assert IsChild(t, p, t.cells[p].ch[i]);
  }

  /** The children of the split node: those up to the cut keep it as parent, the others move to r. */
  lemma MovedChild(t: Tree, n: Node, p: Node, r: Node, i: nat, j: nat)
    requires SplitsInner(t, n, p, r, i) && j < |t.cells[n].ch|
    ensures var x := t.cells[n].ch[j];
            x in t.cells && SplitInnerCell(t, n, p, r, i, x) ==
              t.cells[x].(parent := if j <= |t.cells[n].keys| / 2 then n else r)
  {
    var c := t.cells[n];
    var mid := |c.keys| / 2;
    var x := c.ch[j];
    ChildDistinct(t, n, p, r, i, j);
    assert NodeOk(t, n);
    if j <= mid {
      forall k | mid + 1 <= k < |c.ch|
        ensures c.ch[k] != x
      {
        ChildrenApart(t, n, j, k);
      }
      assert x !in c.ch[mid + 1..];
    } else {
      assert c.ch[mid + 1..][j - mid - 1] == x;
    }
  }

  /** A node outside the split keeps its cell. */
  lemma UntouchedCell(t: Tree, n: Node, p: Node, r: Node, i: nat, x: Node)
    requires SplitsInner(t, n, p, r, i) && x in t.cells && x != n && x != p && t.cells[x].parent != n
    ensures SplitInnerCell(t, n, p, r, i, x) == t.cells[x]
  {
    var c := t.cells[n];
    forall k | 0 <= k < |c.ch|
      ensures c.ch[k] != x
    {
      ChildDistinct(t, n, p, r, i, k);
    }
  }

  /** The parent keeps its own parent, which is not the split node. */
  lemma ParentCell(t: Tree, n: Node, p: Node, r: Node, i: nat)
    requires SplitsInner(t, n, p, r, i)
    ensures t.cells[p].parent != n && t.spans[p].height == t.spans[n].height + 1
    ensures SplitInnerCell(t, n, p, r, i, p).parent == t.cells[p].parent
  {
    assert NodeOk(t, p) && IsChild(t, p, t.cells[p].ch[i]);
    assert UpOk(t, p);
    if t.cells[p].parent == n {
      var j: nat :| j < |t.cells[n].ch| && t.cells[n].ch[j] == p;
      ChildDistinct(t, n, p, r, i, j);
      assert false;
    }
  }

  /** The keys and children that the split node keeps. */
  lemma SplitLeftFrame(t: Tree, n: Node, p: Node, r: Node, i: nat)
    requires SplitsInner(t, n, p, r, i) && Known(SplitInner(t, n, p, r, i))
    ensures var u, mid := SplitInner(t, n, p, r, i), |t.cells[n].keys| / 2;
      && !u.cells[n].leaf && Framed(u, n)
      && u.cells[n].keys == t.cells[n].keys[..mid] && u.cells[n].ch == t.cells[n].ch[..mid + 1]
  {
    var mid := |t.cells[n].keys| / 2;
    assert NodeOk(t, n);
    ChildWithin(t, n, mid);
    ChildWithin(t, n, 0);
    ChildDistinct(t, n, p, r, i, 0);
    ChildDistinct(t, n, p, r, i, mid);
  }

  lemma SplitLeftChild(t: Tree, n: Node, p: Node, r: Node, i: nat, j: nat)
    requires SplitsInner(t, n, p, r, i) && j <= |t.cells[n].keys| / 2 && Known(SplitInner(t, n, p, r, i))
    ensures var x := t.cells[n].ch[j];
      IsChild(SplitInner(t, n, p, r, i), n, x) && SplitInner(t, n, p, r, i).spans[x] == t.spans[x]
  {
    ChildDistinct(t, n, p, r, i, j);
    MovedChild(t, n, p, r, i, j);
  }

  lemma SplitLeftMeet(t: Tree, n: Node, p: Node, r: Node, i: nat, j: nat)
    requires SplitsInner(t, n, p, r, i) && j < |t.cells[n].keys| / 2 && Known(SplitInner(t, n, p, r, i))
    requires var c := SplitInner(t, n, p, r, i).cells[n]; |c.ch| == |c.keys| + 1
    ensures Meet(SplitInner(t, n, p, r, i), SplitInner(t, n, p, r, i).cells[n], j)
  {
    assert NodeOk(t, n);
    assert Meet(t, t.cells[n], j);
    SplitLeftChild(t, n, p, r, i, j);
    SplitLeftChild(t, n, p, r, i, j + 1);
  }

  lemma SplitInnerLeft(t: Tree, n: Node, p: Node, r: Node, i: nat)
    requires SplitsInner(t, n, p, r, i) && Known(SplitInner(t, n, p, r, i))
    ensures NodeOk(SplitInner(t, n, p, r, i), n)
  {
    var u := SplitInner(t, n, p, r, i);
    var c, d := t.cells[n], u.cells[n];
    assert |c.ch| == |c.keys| + 1;
    SplitLeftFrame(t, n, p, r, i);
    hide *;
    forall j | 0 <= j < |d.ch|
      ensures IsChild(u, n, d.ch[j])
    {
      SplitLeftChild(t, n, p, r, i, j);
    }
    forall j | 0 <= j < |d.keys|
      ensures Meet(u, d, j)
    {
      SplitLeftMeet(t, n, p, r, i, j);
    }
    MakesInner(u, n);
  }

  lemma SplitRightChild(t: Tree, n: Node, p: Node, r: Node, i: nat, j: nat)
    requires SplitsInner(t, n, p, r, i) && |t.cells[n].keys| / 2 < j < |t.cells[n].ch|
    ensures var u := SplitInner(t, n, p, r, i);
            var x := t.cells[n].ch[j];
            IsChild(u, r, x) && u.spans[x] == t.spans[x]
  {
    ChildDistinct(t, n, p, r, i, j);
    MovedChild(t, n, p, r, i, j);
  }

  lemma SplitRightMeet(t: Tree, n: Node, p: Node, r: Node, i: nat, j: nat)
    requires SplitsInner(t, n, p, r, i) && |t.cells[n].keys| / 2 < j < |t.cells[n].keys|
    ensures var u := SplitInner(t, n, p, r, i);
            Meet(u, u.cells[r], j - |t.cells[n].keys| / 2 - 1)
  {
    assert NodeOk(t, n);
    assert Meet(t, t.cells[n], j);
    SplitRightChild(t, n, p, r, i, j);
    SplitRightChild(t, n, p, r, i, j + 1);
  }

  lemma SplitRightFrame(t: Tree, n: Node, p: Node, r: Node, i: nat)
    requires SplitsInner(t, n, p, r, i) && Known(SplitInner(t, n, p, r, i))
    ensures var u, mid := SplitInner(t, n, p, r, i), |t.cells[n].keys| / 2;
      && !u.cells[r].leaf && Framed(u, r)
      && u.cells[r].keys == t.cells[n].keys[mid + 1..] && u.cells[r].ch == t.cells[n].ch[mid + 1..]
  {
    var c := t.cells[n];
    var mid := |c.keys| / 2;
    assert NodeOk(t, n);
    ChildWithin(t, n, mid + 1);
    assert Meet(t, c, mid);
    SplitRightChild(t, n, p, r, i, mid + 1);
    SplitRightChild(t, n, p, r, i, |c.keys|);
  }

  lemma SplitInnerRight(t: Tree, n: Node, p: Node, r: Node, i: nat)
    requires SplitsInner(t, n, p, r, i) && Known(SplitInner(t, n, p, r, i))
    ensures NodeOk(SplitInner(t, n, p, r, i), r)
  {
    var u := SplitInner(t, n, p, r, i);
    var c, d := t.cells[n], u.cells[r];
    var mid := |c.keys| / 2;
    assert |c.ch| == |c.keys| + 1;
    SplitRightFrame(t, n, p, r, i);
    hide *;
    forall j | 0 <= j < |d.ch|
      ensures IsChild(u, r, d.ch[j])
    {
      SplitRightChild(t, n, p, r, i, mid + 1 + j);
    }
    forall j | 0 <= j < |d.keys|
      ensures Meet(u, d, j)
    {
      SplitRightMeet(t, n, p, r, i, mid + 1 + j);
    }
    MakesInner(u, r);
  }

  /** The other children of p are as they were. */
  lemma Sibling(t: Tree, n: Node, p: Node, r: Node, i: nat, j: nat)
    requires SplitsInner(t, n, p, r, i) && j < |t.cells[p].ch| && j != i
    ensures var x := t.cells[p].ch[j];
            && x in t.cells && x != n && x != r && IsChild(t, p, x)
            && SplitInnerCell(t, n, p, r, i, x) == t.cells[x]
  {
    var x := t.cells[p].ch[j];
    assert NodeOk(t, p) && IsChild(t, p, x);
    if i < j { ChildrenApart(t, p, i, j); } else { ChildrenApart(t, p, j, i); }
    UntouchedCell(t, n, p, r, i, x);
  }

  lemma SplitParentFrame(t: Tree, n: Node, p: Node, r: Node, i: nat)
    requires SplitsInner(t, n, p, r, i) && Known(SplitInner(t, n, p, r, i))
    ensures var u := SplitInner(t, n, p, r, i);
      && !u.cells[p].leaf && Framed(u, p)
      && u.cells[p].keys == InsertAt(t.cells[p].keys, i, t.cells[n].keys[|t.cells[n].keys| / 2])
      && u.cells[p].ch == InsertAt(t.cells[p].ch, i + 1, r)
  {
    var pc := t.cells[p];
    assert NodeOk(t, p) && NodeOk(t, n) && IsChild(t, p, pc.ch[i]);
    if i > 0 { Sibling(t, n, p, r, i, 0); }
    if i < |pc.keys| { Sibling(t, n, p, r, i, |pc.keys|); }
  }

  lemma SplitParentChild(t: Tree, n: Node, p: Node, r: Node, i: nat, j: nat)
    requires SplitsInner(t, n, p, r, i) && j <= |t.cells[p].ch| && Known(SplitInner(t, n, p, r, i))
    ensures IsChild(SplitInner(t, n, p, r, i), p, InsertAt(t.cells[p].ch, i + 1, r)[j])
  {
    assert NodeOk(t, p) && NodeOk(t, n) && IsChild(t, p, t.cells[p].ch[i]);
    var mid := |t.cells[n].keys| / 2;
    if j == i {
      ChildWithin(t, n, mid);
    } else if j == i + 1 {
      assert Meet(t, t.cells[n], mid);
      ChildWithin(t, n, mid + 1);
    } else {
      Sibling(t, n, p, r, i, if j < i then j else j - 1);
    }
  }

  lemma SplitInnerParent(t: Tree, n: Node, p: Node, r: Node, i: nat)
    requires SplitsInner(t, n, p, r, i) && Known(SplitInner(t, n, p, r, i))
    ensures NodeOk(SplitInner(t, n, p, r, i), p)
  {
    var u := SplitInner(t, n, p, r, i);
    var pc, d := t.cells[p], u.cells[p];
    SplitParentFrame(t, n, p, r, i);
    assert |d.ch| == |pc.ch| + 1 && |d.keys| == |pc.keys| + 1 && |pc.ch| == |pc.keys| + 1;
    hide *;
    forall j | 0 <= j < |d.ch|
      ensures IsChild(u, p, d.ch[j])
    {
      SplitParentChild(t, n, p, r, i, j);
    }
    forall j | 0 <= j < |d.keys|
      ensures Meet(u, d, j)
    {
      SplitParentMeet(t, n, p, r, i, j);
    }
    MakesInner(u, p);
  }

  /** The middle key between n and r. */
  lemma SplitMeetHere(t: Tree, n: Node, p: Node, r: Node, i: nat)
    requires SplitsInner(t, n, p, r, i) && Known(SplitInner(t, n, p, r, i))
    ensures Meet(SplitInner(t, n, p, r, i), SplitInner(t, n, p, r, i).cells[p], i)
  {
    assert NodeOk(t, n);
    assert Meet(t, t.cells[n], |t.cells[n].keys| / 2);
  }

  lemma SplitMeetBefore(t: Tree, n: Node, p: Node, r: Node, i: nat, j: nat)
    requires SplitsInner(t, n, p, r, i) && j < i && Known(SplitInner(t, n, p, r, i))
    ensures Meet(SplitInner(t, n, p, r, i), SplitInner(t, n, p, r, i).cells[p], j)
  {
    assert NodeOk(t, p) && NodeOk(t, n);
    assert Meet(t, t.cells[p], j);
    Sibling(t, n, p, r, i, j);
    if j + 1 < i { Sibling(t, n, p, r, i, j + 1); }
  }

  lemma SplitMeetAfter(t: Tree, n: Node, p: Node, r: Node, i: nat, j: nat)
    requires SplitsInner(t, n, p, r, i) && i < j <= |t.cells[p].keys| && Known(SplitInner(t, n, p, r, i))
    ensures Meet(SplitInner(t, n, p, r, i), SplitInner(t, n, p, r, i).cells[p], j)
  {
    assert NodeOk(t, p) && NodeOk(t, n);
    assert Meet(t, t.cells[p], j - 1);
    Sibling(t, n, p, r, i, j);
    if j - 1 > i { Sibling(t, n, p, r, i, j - 1); }
  }

  lemma SplitParentMeet(t: Tree, n: Node, p: Node, r: Node, i: nat, j: nat)
    requires SplitsInner(t, n, p, r, i) && j <= |t.cells[p].keys| && Known(SplitInner(t, n, p, r, i))
    requires var d := SplitInner(t, n, p, r, i).cells[p]; j < |d.keys| && |d.ch| == |d.keys| + 1
    ensures Meet(SplitInner(t, n, p, r, i), SplitInner(t, n, p, r, i).cells[p], j)
  {
    hide *;
    if j < i {
      SplitMeetBefore(t, n, p, r, i, j);
    } else if j == i {
      SplitMeetHere(t, n, p, r, i);
    } else {
      SplitMeetAfter(t, n, p, r, i, j);
    }
  }

  /** Children of an untouched node stay its children and keep their leaves. */
  lemma ElsewhereChild(t: Tree, n: Node, p: Node, r: Node, i: nat, x: Node, j: nat)
    requires SplitsInner(t, n, p, r, i) && x in t.cells && x != n && x != p && Known(SplitInner(t, n, p, r, i))
    requires InnerNode(t, x) && j < |t.cells[x].ch|
    ensures var u, y := SplitInner(t, n, p, r, i), t.cells[x].ch[j];
      y in t.cells && IsChild(u, x, y) && u.spans[y] == t.spans[y]
  {
    var y := t.cells[x].ch[j];
    assert IsChild(t, x, y);
    if y == p { ParentCell(t, n, p, r, i); } else { UntouchedCell(t, n, p, r, i, y); }
  }

  lemma ElsewhereMeet(t: Tree, n: Node, p: Node, r: Node, i: nat, x: Node, j: nat)
    requires SplitsInner(t, n, p, r, i) && x in t.cells && x != n && x != p && Known(SplitInner(t, n, p, r, i))
    requires InnerNode(t, x) && j < |t.cells[x].keys|
    requires var d := SplitInner(t, n, p, r, i).cells[x]; d.keys == t.cells[x].keys && d.ch == t.cells[x].ch
    ensures Meet(SplitInner(t, n, p, r, i), SplitInner(t, n, p, r, i).cells[x], j)
  {
    assert Meet(t, t.cells[x], j);
    ElsewhereChild(t, n, p, r, i, x, j);
    ElsewhereChild(t, n, p, r, i, x, j + 1);
  }

  lemma SplitInnerElsewhere(t: Tree, n: Node, p: Node, r: Node, i: nat, x: Node)
    requires SplitsInner(t, n, p, r, i) && x in t.cells && x != n && x != p && Known(SplitInner(t, n, p, r, i))
    ensures NodeOk(SplitInner(t, n, p, r, i), x)
  {
    var u := SplitInner(t, n, p, r, i);
    var c, d := t.cells[x], u.cells[x];
    assert NodeOk(t, x);
    if !c.leaf {
      ElsewhereChild(t, n, p, r, i, x, 0);
      ElsewhereChild(t, n, p, r, i, x, |c.keys|);
      assert Framed(u, x) && InnerNode(t, x) && !d.leaf && d.keys == c.keys && d.ch == c.ch && |c.ch| == |c.keys| + 1;
      hide *;
      forall j | 0 <= j < |c.ch|
        ensures IsChild(u, x, d.ch[j])
      {
        ElsewhereChild(t, n, p, r, i, x, j);
      }
      forall j | 0 <= j < |c.keys|
        ensures Meet(u, d, j)
      {
        ElsewhereMeet(t, n, p, r, i, x, j);
      }
      MakesInner(u, x);
    }
  }

  lemma SplitInnerUp(t: Tree, n: Node, p: Node, r: Node, i: nat, x: Node)
    requires SplitsInner(t, n, p, r, i) && x in t.cells.Keys + {r}
    ensures UpOk(SplitInner(t, n, p, r, i), x)
  {
    var u := SplitInner(t, n, p, r, i);
    var c, d := t.cells[n], u.cells[p];
    assert NodeOk(t, n) && NodeOk(t, p);
    assert d.ch[i + 1] == r;
    assert forall y | y in t.cells[p].ch :: y in d.ch by {
      assert t.cells[p].ch == t.cells[p].ch[..i + 1] + t.cells[p].ch[i + 1..];
    }
    if x == r {
    } else {
      assert UpOk(t, x);
      if t.cells[x].parent == n {
        var j: nat :| j < |c.ch| && c.ch[j] == x;
        MovedChild(t, n, p, r, i, j);
        var mid := |c.keys| / 2;
        if j <= mid { assert u.cells[n].ch[j] == x; } else { assert u.cells[r].ch[j - mid - 1] == x; }
        ChildDistinct(t, n, p, r, i, j);
      } else {
        if x == p {
          ParentCell(t, n, p, r, i);
        } else if x != n {
          UntouchedCell(t, n, p, r, i, x);
        }
        var q := t.cells[x].parent;
        if q != null && q != p {
          assert q != n;
          SplitInnerCellKeepsChildren(t, n, p, r, i, q);
        }
      }
    }
  }

  lemma SplitInnerCellKeepsChildren(t: Tree, n: Node, p: Node, r: Node, i: nat, q: Node)
    requires SplitsInner(t, n, p, r, i) && q in t.cells && q != n && q != p
    ensures var d := SplitInnerCell(t, n, p, r, i, q); d.ch == t.cells[q].ch && d.leaf == t.cells[q].leaf
  {
  }

  lemma SplitInnerChain(t: Tree, n: Node, p: Node, r: Node, i: nat, k: nat)
    requires SplitsInner(t, n, p, r, i) && k < |t.leaves| && Known(SplitInner(t, n, p, r, i))
    ensures ChainOk(SplitInner(t, n, p, r, i), k)
  {
    assert ChainOk(t, k);
    var l := t.leaves[k];
    assert SplitInnerCell(t, n, p, r, i, l).next == t.cells[l].next;
  }

  lemma SplitInnerNode(t: Tree, n: Node, p: Node, r: Node, i: nat, x: Node)
    requires SplitsInner(t, n, p, r, i) && Known(SplitInner(t, n, p, r, i)) && x in t.cells.Keys + {r}
    requires SplitInner(t, n, p, r, i).cells.Keys == t.cells.Keys + {r}
    ensures NodeOk(SplitInner(t, n, p, r, i), x)
  {
    hide *;
    if x == n {
      SplitInnerLeft(t, n, p, r, i);
    } else if x == r {
      SplitInnerRight(t, n, p, r, i);
    } else if x == p {
      SplitInnerParent(t, n, p, r, i);
    } else {
      SplitInnerElsewhere(t, n, p, r, i, x);
    }
  }

  lemma SplitInnerKnown(t: Tree, n: Node, p: Node, r: Node, i: nat)
    requires SplitsInner(t, n, p, r, i)
    ensures var u := SplitInner(t, n, p, r, i);
      && Known(u) && u.cells.Keys == t.cells.Keys + {r} && u.leaves == t.leaves
      && u.spans[u.root].from == 0 && u.spans[u.root].to == |u.leaves|
  {
    assert UpOk(t, n);
  }

  /** Splitting an inner node keeps the tree well linked, with the same leaves and separators. */
  lemma SplitInnerLinked(t: Tree, n: Node, p: Node, r: Node, i: nat)
    requires SplitsInner(t, n, p, r, i)
    ensures Linked(SplitInner(t, n, p, r, i))
  {
    assert Divisible(t, n, p, r, i);
    hide *;
    var u := SplitInner(t, n, p, r, i);
    SplitInnerKnown(t, n, p, r, i);
    forall x | x in u.cells
      ensures NodeOk(u, x) && UpOk(u, x)
    {
      SplitInnerUp(t, n, p, r, i, x);
      SplitInnerNode(t, n, p, r, i, x);
    }
    forall k | 0 <= k < |u.leaves|
      ensures ChainOk(u, k)
    {
      SplitInnerChain(t, n, p, r, i, k);
    }
    MakesLinked(u);
  }
}
