/** The B+ tree index (src/core/btree.cpp): nodes on the heap, changed in place. Every method is proved to
    act on the leaves and separators as the flat index of FlatIndex.dfy does. */
module BPlusTree {
  import opened Values
  import opened StringPools
  import opened FlatIndex
  import opened FlatSearch
  import opened TreeShape
  import opened LeafSplit
  import opened TreeView

  ghost function CellOf(n: Node): Cell
    reads n
  {
    Cell(n.leaf, n.parent, n.keys, n.rows, n.ch, n.next)
  }

  class BPlusTreeIndex {
    const pool: StringPool
    const order: nat
    var root: Node?

    ghost var Repr: set<Node>
    ghost var spans: map<Node, Span>
    ghost var leaves: seq<Node>
    ghost var seps: seq<Value>

    /** All nodes of the tree as they are now. */
    ghost function Snap(): Tree
      requires root != null
      reads this, Repr
    {
      Tree(map n | n in Repr :: CellOf(n), spans, root, leaves, seps)
    }

    lemma SnapIs(u: Tree)
      requires root == u.root && spans == u.spans && leaves == u.leaves && seps == u.seps && Repr == u.cells.Keys
      requires forall x {:trigger CellOf(x)} | x in Repr :: CellOf(x) == u.cells[x]
      ensures Snap() == u
    {
    }

    ghost predicate Shaped()
      reads this, Repr
    {
      if root == null then Repr == {} else Linked(Snap())
    }

    /** The flat index this tree stands for. */
    ghost function View(): (f: Flat)
      requires Shaped()
      reads this, Repr
      ensures Shape(f)
    {
      if root == null then EMPTY else FlatOf(Snap())
    }

    ghost predicate Valid()
      reads this, Repr, pool
    {
      && order >= 4
      && Shaped()
      && (root != null ==> Capped(Snap(), order, null) && Filled(Snap(), order, null))
      && Sorted(pool.strings, View())
    }

    constructor (pool: StringPool, order: int)
      ensures Valid() && fresh(Repr)
      ensures this.pool == pool && this.order == (if order < 4 then 4 else order)
      ensures View() == EMPTY
    {
      this.pool, this.order := pool, if order < 4 then 4 else order;
      root, Repr, spans, leaves, seps := null, {}, map[], [], [];
    }

    method Clear()
      requires Valid()
      modifies this
      ensures Valid() && Repr == {}
      ensures View() == EMPTY
    {
      root, Repr, spans, leaves, seps := null, {}, map[], [], [];
    }

    method FindLeaf(k: Value) returns (leaf: Node)
      requires Valid() && root != null
      ensures leaf in Repr && leaf.leaf && leaf in spans
      ensures spans[leaf].from == Route(pool.strings, seps, k)
      ensures spans[leaf].from < |leaves| && leaves[spans[leaf].from] == leaf
    {
      ghost var t := Snap();
      ghost var strings := pool.strings;
      leaf := root;
      assert NodeOk(t, root);
      while !leaf.leaf
        invariant leaf in Repr && Brackets(strings, t, leaf, k)
        decreases t.spans[leaf].height
      {
        assert NodeOk(t, leaf);
        var i := 0;
        while i < |leaf.keys| && pool.Compare(leaf.keys[i], k) <= 0
          invariant 0 <= i <= |leaf.keys|
          invariant forall j | 0 <= j < i :: Cmp(strings, leaf.keys[j], k) <= 0
        {
          i := i + 1;
        }
        assert i == Route(strings, leaf.keys, k);
        DescendStep(strings, t, leaf, k);
        leaf := leaf.ch[i];
      }
      DescendEnds(strings, t, leaf, k);
      LeafAt(t, leaf);
    }

    method InsertLeaf(leaf: Node, key: Value, row: nat)
      requires |leaf.keys| == |leaf.rows|
      modifies leaf`keys, leaf`rows
      ensures |leaf.keys| == |leaf.rows| == |old(leaf.keys)| + 1
      ensures Pairs(leaf.keys, leaf.rows) ==
                WithEntry(pool.strings, old(Pairs(leaf.keys, leaf.rows)), Entry(key, row))
    {
      ghost var es := Pairs(leaf.keys, leaf.rows);
      ghost var ks, rs := leaf.keys, leaf.rows;
      var pos := 0;
      while pos < |leaf.keys| && pool.Compare(leaf.keys[pos], key) < 0
        invariant 0 <= pos <= |leaf.keys|
        invariant forall j | 0 <= j < pos :: Cmp(pool.strings, leaf.keys[j], key) < 0
      {
        pos := pos + 1;
      }
      assert pos == Slot(pool.strings, es, key);
      leaf.keys := leaf.keys[..pos] + [key] + leaf.keys[pos..];
      leaf.rows := leaf.rows[..pos] + [row] + leaf.rows[pos..];
      PairsInsert(ks, rs, pos, key, row);
    }

    /** Puts `right` and the separator `sep` right of the child `left`. */
    method InsertSep(parent: Node, sep: Value, left: Node, right: Node) returns (ghost at: nat)
      requires left in parent.ch && |parent.ch| == |parent.keys| + 1 && right != parent
      modifies parent`keys, parent`ch, right`parent
      ensures at < |old(parent.ch)| && old(parent.ch)[at] == left
      ensures parent.keys == InsertAt(old(parent.keys), at, sep)
      ensures parent.ch == InsertAt(old(parent.ch), at + 1, right)
      ensures right.parent == parent
    {
      var idx := 0;
      while idx < |parent.ch| && parent.ch[idx] != left
        invariant 0 <= idx <= |parent.ch|
        invariant forall j | 0 <= j < idx :: parent.ch[j] != left
      {
        idx := idx + 1;
      }
      at := idx;
      parent.keys := parent.keys[..idx] + [sep] + parent.keys[idx..];
      parent.ch := parent.ch[..idx + 1] + [right] + parent.ch[idx + 1..];
      right.parent := parent;
    }

    /** Puts a new root over the old one and its new right half. */
    method NewRoot(left: Node, sep: Value, right: Node) returns (nr: Node)
      requires left != right
      modifies this`root, left`parent, right`parent
      ensures fresh(nr) && root == nr
      ensures CellOf(nr) == Cell(false, null, [sep], [], [left, right], null)
      ensures left.parent == nr && right.parent == nr
    {
      nr := new Node(false);
      nr.ch := [left, right];
      nr.keys := [sep];
      left.parent := nr;
      right.parent := nr;
      root := nr;
    }

    /** The tree is well linked, and only `cur` may hold one key too many. */
    ghost predicate Cascading(cur: Node)
      reads this, Repr
    {
      && order >= 4 && root != null && cur in Repr && Linked(Snap())
      && Capped(Snap(), order, cur) && Filled(Snap(), order, null)
      && |cur.keys| <= order + 1 && cur in spans && root in spans
    }

    lemma HasRoot(cur: Node)
      requires Cascading(cur)
      ensures root != null
    {
    }

    /** How many levels the cascade can still climb. */
    ghost function Depth(cur: Node): int
      requires root != null && root in spans && cur in spans
      reads this
    {
      spans[root].height - spans[cur].height
    }

    /** The keys and children after the middle key move to a new node, which becomes their parent. */
    method CutInner(cur: Node) returns (right: Node, sep: Value)
      requires cur in Repr && |cur.keys| >= 2 && |cur.ch| == |cur.keys| + 1
      requires forall c | c in cur.ch :: c in Repr && c != cur
      modifies Repr
      ensures fresh(right) && sep == old(cur.keys[|cur.keys| / 2])
      ensures var mid := |old(cur.keys)| / 2;
              && CellOf(right) == Cell(false, null, old(cur.keys)[mid + 1..], [], old(cur.ch)[mid + 1..], null)
              && CellOf(cur) == old(CellOf(cur)).(keys := old(cur.keys)[..mid], ch := old(cur.ch)[..mid + 1])
              && forall n | n in Repr && n != cur ::
                   CellOf(n) == if n in old(cur.ch)[mid + 1..] then old(CellOf(n)).(parent := right) else old(CellOf(n))
    {
      var mid := |cur.keys| / 2;
      right := new Node(false);
      sep := cur.keys[mid];
      right.keys := cur.keys[mid + 1..];
      right.ch := cur.ch[mid + 1..];
      ghost var kids := cur.ch;
      assert forall c | c in right.ch :: c in kids;
      cur.keys := cur.keys[..mid];
      cur.ch := cur.ch[..mid + 1];
      forall c | c in right.ch {
        c.parent := right;
      }
    }

    /** The heap holds the nodes of t, except that the upper half of inner node n has moved to r. */
    ghost predicate Halved(t: Tree, n: Node, r: Node)
      reads this, Repr, r
    {
      && root == t.root && spans == t.spans && leaves == t.leaves && seps == t.seps && Repr == t.cells.Keys
      && n in Repr && r !in Repr && |t.cells[n].keys| >= 2 && |t.cells[n].ch| == |t.cells[n].keys| + 1
      && CellOf(r) == UpperHalf(t, n)
      && forall x {:trigger CellOf(x)} | x in Repr :: CellOf(x) == HalvedCell(t, n, r, x)
    }

    /** The tree t was overfull at n only. */
    ghost predicate OverfullInner(t: Tree, n: Node) {
      && order >= 4 && Linked(t) && n in t.cells && !t.cells[n].leaf && |t.cells[n].keys| == order + 1
      && Capped(t, order, n) && Filled(t, order, null)
    }

    method AttachBelowRoot(cur: Node, right: Node, sep: Value, ghost t: Tree) returns (up: Node)
      requires OverfullInner(t, cur) && Halved(t, cur, right) && cur.parent == null
      requires sep == t.cells[cur].keys[|t.cells[cur].keys| / 2]
      modifies this, Repr, right
      ensures fresh(up) && Repr == t.cells.Keys + {up, right} && root == up
      ensures Divisible(GrowRoot(t, up), cur, up, right, 0)
      ensures Snap() == SplitInner(GrowRoot(t, up), cur, up, right, 0)
    {
      hide Linked, NodeOk, UpOk, SplitsInner, Divisible, Capped, Filled, FlatOf;
      NodeFacts(t, cur);
      assert CellOf(cur) == HalvedCell(t, cur, right, cur);
      assert root == cur && leaves == t.leaves && seps == t.seps && Repr == t.cells.Keys;
      up := NewRoot(cur, sep, right);
      forall x | x in t.cells.Keys + {up, right}
        ensures CellOf(x) == RootInnerCell(t, up, right, x)
      {
        if x in Repr && x != cur { assert CellOf(x) == HalvedCell(t, cur, right, x); }
      }
      hide RootInnerCell, HalvedCell, Halved, OverfullInner, GrowRoot, SplitInner;
      RootSplitReady(t, up, right);
      ghost var u := SplitInner(GrowRoot(t, up), cur, up, right, 0);
      RootInnerCells(t, up, right);
      Repr := Repr + {up, right};
      spans := u.spans;
      SnapIs(u);
    }

    method AttachBelowParent(cur: Node, right: Node, sep: Value, ghost t: Tree) returns (up: Node, ghost at: nat)
      requires OverfullInner(t, cur) && Halved(t, cur, right) && cur.parent != null
      requires sep == t.cells[cur].keys[|t.cells[cur].keys| / 2]
      modifies this, Repr, right
      ensures Repr == t.cells.Keys + {right} && root == t.root && up == t.cells[cur].parent
      ensures up in t.cells && at < |t.cells[up].ch| && t.cells[up].ch[at] == cur
      ensures Divisible(t, cur, up, right, at)
      ensures Snap() == SplitInner(t, cur, up, right, at)
    {
      hide Linked, NodeOk, UpOk, SplitsInner, Divisible, Capped, Filled, FlatOf, SplitInner;
      NodeFacts(t, cur);
      assert CellOf(cur) == HalvedCell(t, cur, right, cur);
      up := cur.parent;
      assert CellOf(up) == HalvedCell(t, cur, right, up);
      at := InsertSep(up, sep, cur, right);
      InnerSplitReady(t, cur, up, right, at);
      ghost var u := SplitInner(t, cur, up, right, at);
      SplitInnerCells(t, cur, up, right, at);
      Repr := Repr + {right};
      spans := u.spans;
      forall x | x in Repr
        ensures CellOf(x) == u.cells[x]
      {
        assert CellOf(x) == SplitInnerCell(t, cur, up, right, at, x);
      }
      SnapIs(u);
    }

    /** The upper half of a leaf moves to a new leaf, chained in after it. */
    method CutLeaf(cur: Node) returns (right: Node, sep: Value)
      requires |cur.keys| >= 2 && |cur.rows| == |cur.keys|
      modifies cur
      ensures fresh(right) && sep == old(cur.keys[|cur.keys| / 2])
      ensures var mid := |old(cur.keys)| / 2;
              && CellOf(right) == Cell(true, null, old(cur.keys)[mid..], old(cur.rows)[mid..], [], old(cur.next))
              && CellOf(cur) == old(CellOf(cur)).(keys := old(cur.keys)[..mid], rows := old(cur.rows)[..mid], next := right)
    {
      right := new Node(true);
      var mid := |cur.keys| / 2;
      right.keys := cur.keys[mid..];
      right.rows := cur.rows[mid..];
      cur.keys := cur.keys[..mid];
      cur.rows := cur.rows[..mid];
      sep := right.keys[0];
      right.next := cur.next;
      cur.next := right;
    }

    /** The heap holds the nodes of t, except that the upper half of leaf n has moved to r. */
    ghost predicate HalvedLeaf(t: Tree, n: Node, r: Node)
      reads this, Repr, r
    {
      && root == t.root && spans == t.spans && leaves == t.leaves && seps == t.seps && Repr == t.cells.Keys
      && n in Repr && r !in Repr && |t.cells[n].keys| >= 2 && |t.cells[n].rows| == |t.cells[n].keys|
      && CellOf(r) == UpperLeaf(t, n) && CellOf(n) == LowerLeaf(t, n, r)
      && forall x {:trigger CellOf(x)} | x in Repr && x != n :: CellOf(x) == t.cells[x]
    }

    /** The tree t was overfull at leaf n only. */
    ghost predicate OverfullLeaf(t: Tree, n: Node) {
      && order >= 4 && Linked(t) && n in t.cells && t.cells[n].leaf && |t.cells[n].keys| == order + 1
      && Capped(t, order, n) && Filled(t, order, null)
    }

    method AttachLeafBelowRoot(cur: Node, right: Node, sep: Value, ghost t: Tree) returns (up: Node)
      requires OverfullLeaf(t, cur) && HalvedLeaf(t, cur, right) && cur.parent == null
      requires sep == t.cells[cur].keys[|t.cells[cur].keys| / 2]
      modifies this, Repr, right
      ensures fresh(up) && Repr == t.cells.Keys + {up, right} && root == up
      ensures SplitsLeaf(GrowRoot(t, up), cur, up, right, 0)
      ensures Snap() == SplitLeaf(GrowRoot(t, up), cur, up, right, 0)
    {
      hide Linked, NodeOk, UpOk, SplitsLeaf, Capped, Filled, FlatOf, Put, SplitLeaf, GrowRoot;
      NodeFacts(t, cur);
      assert root == cur && Repr == t.cells.Keys;
      up := NewRoot(cur, sep, right);
      forall x | x in t.cells.Keys + {up, right}
        ensures CellOf(x) == RootLeafCell(t, up, right, x)
      {
        if x in Repr && x != cur { assert CellOf(x) == t.cells[x]; }
      }
      hide RootLeafCell, HalvedLeaf, OverfullLeaf;
      RootLeafReady(t, up, right);
      ghost var u := SplitLeaf(GrowRoot(t, up), cur, up, right, 0);
      RootLeafCells(t, up, right);
      Repr := Repr + {up, right};
      spans, leaves, seps := u.spans, u.leaves, u.seps;
      SnapIs(u);
    }

    method AttachLeafBelowParent(cur: Node, right: Node, sep: Value, ghost t: Tree) returns (up: Node, ghost at: nat)
      requires OverfullLeaf(t, cur) && HalvedLeaf(t, cur, right) && cur.parent != null
      requires sep == t.cells[cur].keys[|t.cells[cur].keys| / 2]
      modifies this, Repr, right
      ensures Repr == t.cells.Keys + {right} && root == t.root && up == t.cells[cur].parent
      ensures up in t.cells && at < |t.cells[up].ch| && t.cells[up].ch[at] == cur
      ensures SplitsLeaf(t, cur, up, right, at)
      ensures Snap() == SplitLeaf(t, cur, up, right, at)
    {
      hide Linked, NodeOk, UpOk, SplitsLeaf, Capped, Filled, FlatOf, Put, SplitLeaf;
      NodeFacts(t, cur);
      up := cur.parent;
      assert CellOf(up) == t.cells[up];
      at := InsertSep(up, sep, cur, right);
      LeafSplitReady(t, cur, up, right, at);
      ghost var u := SplitLeaf(t, cur, up, right, at);
      SplitLeafCells(t, cur, up, right, at);
      Repr := Repr + {right};
      spans, leaves, seps := u.spans, u.leaves, u.seps;
      forall x | x in Repr
        ensures CellOf(x) == u.cells[x]
      {
        assert CellOf(x) == SplitLeafCell(t, cur, up, right, at, x);
      }
      SnapIs(u);
    }

    /** After a split, with `up` above the two halves. */
    lemma CascadesOn(u: Tree, up: Node)
      requires root != null && Snap() == u && order >= 4 && Linked(u) && up in u.cells && up in u.spans && u.root in u.spans
      requires Capped(u, order, up) && Filled(u, order, null) && |u.cells[up].keys| <= order + 1
      ensures Cascading(up) && CellOf(up) == u.cells[up] && Shaped() && View() == FlatOf(u)
      ensures Depth(up) == u.spans[u.root].height - u.spans[up].height
    {
      hide Linked, Capped, Filled, FlatOf;
    }

    /** Splits a leaf that holds one entry too many, as the source does below a parent or, for a root
        that is a leaf, below a new root. */
    method DivideLeaf(cur: Node) returns (up: Node)
      requires Cascading(cur) && cur.leaf && |cur.keys| == order + 1
      modifies this, Repr
      ensures Cascading(up) && !up.leaf && fresh(Repr - old(Repr)) && old(Repr) <= Repr
      ensures var q := old(spans[cur].from);
              && q < |old(leaves)| && old(leaves[q]) == cur && old(Pairs(cur.keys, cur.rows)) != []
              && View() == Put(order, old(View()), q, old(Pairs(cur.keys, cur.rows)))
      ensures |up.keys| <= order || Depth(up) < old(Depth(cur))
    {
      hide Linked, NodeOk, UpOk, SplitsLeaf, Capped, Filled, FlatOf, SplitLeaf, GrowRoot, Put;
      ghost var t := Snap();
      NodeFacts(t, cur);
      LeafAt(t, cur);
      var right, sep := CutLeaf(cur);
      if cur.parent == null {
        up := AttachLeafBelowRoot(cur, right, sep, t);
        RootLeafFacts(t, up, right, order);
        assert CellOf(up) == Snap().cells[up];
      } else {
        ghost var at;
        up, at := AttachLeafBelowParent(cur, right, sep, t);
        FilledParent(t, order, up);
        LeafSplitFacts(t, cur, up, right, at, order);
        assert CellOf(up) == Snap().cells[up];
      }
    }

    /** The halves of the root come below a new root, which holds one key. */
    method RaiseRoot(cur: Node, right: Node, sep: Value, ghost t: Tree) returns (up: Node)
      requires OverfullInner(t, cur) && Halved(t, cur, right) && cur.parent == null
      requires sep == t.cells[cur].keys[|t.cells[cur].keys| / 2]
      modifies this, Repr, right
      ensures fresh(up) && Repr == t.cells.Keys + {up, right}
      ensures Cascading(up) && !up.leaf && |up.keys| <= order && Shaped() && View() == FlatOf(t)
    {
      hide Linked, NodeOk, UpOk, SplitsInner, Divisible, Capped, Filled, FlatOf, SplitInner, GrowRoot;
      NodeFacts(t, cur);
      assert CellOf(cur) == HalvedCell(t, cur, right, cur);
      up := AttachBelowRoot(cur, right, sep, t);
      hide Halved, Cascading;
      RootInnerFacts(t, up, right, order);
      CascadesOn(SplitInner(GrowRoot(t, up), cur, up, right, 0), up);
    }

    /** The new half comes right of the old one below their parent, one level higher. */
    method RaiseBelow(cur: Node, right: Node, sep: Value, ghost t: Tree) returns (up: Node)
      requires OverfullInner(t, cur) && Halved(t, cur, right) && cur.parent != null
      requires sep == t.cells[cur].keys[|t.cells[cur].keys| / 2]
      modifies this, Repr, right
      ensures Repr == t.cells.Keys + {right} && cur in t.spans && t.root in t.spans
      ensures Cascading(up) && !up.leaf && Shaped() && View() == FlatOf(t)
      ensures Depth(up) < t.spans[t.root].height - t.spans[cur].height
    {
      hide Linked, NodeOk, UpOk, SplitsInner, Divisible, Capped, Filled, FlatOf, SplitInner;
      NodeFacts(t, cur);
      assert CellOf(cur) == HalvedCell(t, cur, right, cur);
      ghost var at;
      up, at := AttachBelowParent(cur, right, sep, t);
      hide Halved, Cascading;
      FilledParent(t, order, up);
      InnerSplitFacts(t, cur, up, right, at, order);
      CascadesOn(SplitInner(t, cur, up, right, at), up);
    }

    /** The upper half of an overfull inner node moves to a new node, still outside the tree. */
    method Halve(cur: Node) returns (right: Node, sep: Value)
      requires Cascading(cur) && !cur.leaf && |cur.keys| == order + 1
      modifies Repr
      ensures fresh(right) && OverfullInner(old(Snap()), cur) && Halved(old(Snap()), cur, right)
      ensures |old(Snap()).cells[cur].keys| > 0 && sep == old(Snap()).cells[cur].keys[|old(Snap()).cells[cur].keys| / 2]
      ensures old(Shaped()) && old(View()) == FlatOf(old(Snap())) && Repr == old(Snap()).cells.Keys
      ensures old(Depth(cur)) == old(Snap()).spans[old(root)].height - old(Snap()).spans[cur].height
      ensures old(root) == old(Snap()).root
    {
      hide Linked, NodeOk, UpOk, Capped, Filled, FlatOf;
      NodeFacts(Snap(), cur);
      right, sep := CutInner(cur);
    }

    /** Splits an inner node that holds one key too many, as the source does below a parent or, for the
        root, below a new root. */
    method DivideInner(cur: Node) returns (up: Node)
      requires Cascading(cur) && !cur.leaf && |cur.keys| == order + 1
      modifies this, Repr
      ensures Cascading(up) && !up.leaf && fresh(Repr - old(Repr)) && old(Repr) <= Repr
      ensures View() == old(View())
      ensures |up.keys| <= order || Depth(up) < old(Depth(cur))
    {
      hide *;
      HasRoot(cur);
      ghost var t, known := Snap(), Repr;
      var right, sep := Halve(cur);
      if cur.parent == null {
        up := RaiseRoot(cur, right, sep, t);
        assert Repr - known <= {up, right};
      } else {
        up := RaiseBelow(cur, right, sep, t);
        assert Repr - known <= {right};
      }
    }

    /** The first entry makes a root that is a leaf. */
    method InsertFirst(key: Value, row: nat)
      requires Valid() && root == null
      modifies this
      ensures Valid() && fresh(Repr)
      ensures View() == Flat([[Entry(key, row)]], [])
    {
      var r := new Node(true);
      r.keys := [key];
      r.rows := [row];
      root := r;
      Repr, spans, leaves, seps := {r}, map[r := Span(0, 1, 0)], [r], [];
      SingleLeaf(Snap());
      assert Pairs([key], [row]) == [Entry(key, row)];
    }

    /** Puts the entry into its leaf, which may then hold one entry too many. */
    method InsertInto(leaf: Node, key: Value, row: nat) returns (ghost es: Leaf)
      requires Valid() && root != null && leaf in Repr && leaf.leaf && leaf in spans
      modifies leaf`keys, leaf`rows
      ensures Cascading(leaf) && leaf.leaf
      ensures var p := spans[leaf].from;
              && p < |old(View()).leaves|
              && es == WithEntry(pool.strings, old(View()).leaves[p], Entry(key, row)) == Pairs(leaf.keys, leaf.rows)
              && (|es| <= order ==> View() == Put(order, old(View()), p, es))
              && View() == Flat(old(View()).leaves[p := es], seps)
    {
      hide Linked, Capped, Filled, FlatOf, Sorted;
      ghost var t := Snap();
      NodeFacts(t, leaf);
      LeafAt(t, leaf);
      InsertLeaf(leaf, key, row);
      es := Pairs(leaf.keys, leaf.rows);
      ghost var u := Rewrite(t, leaf, leaf.keys, leaf.rows);
      RewriteLinked(t, leaf, leaf.keys, leaf.rows);
      RewriteSizes(t, leaf, leaf.keys, leaf.rows, order);
      SnapIs(u);
    }

    /** Splits nodes from an overfull leaf upwards while they hold too many keys. */
    method Cascade(leaf: Node, ghost f: Flat, ghost p: nat, ghost es: Leaf)
      requires Cascading(leaf) && leaf.leaf && |leaf.keys| == order + 1
      requires es == Pairs(leaf.keys, leaf.rows) && es != [] && spans[leaf].from == p
      requires Shape(f) && p < |f.leaves| && View() == Flat(f.leaves[p := es], f.seps)
      modifies this, Repr
      ensures root != null && Linked(Snap()) && Capped(Snap(), order, null) && Filled(Snap(), order, null)
      ensures View() == Put(order, f, p, es) && fresh(Repr - old(Repr))
    {
      hide Linked, Capped, Filled, FlatOf, Put;
      var cur := DivideLeaf(leaf);
      PutAfterUpdate(order, f, p, es);
      while |cur.keys| > order
        invariant Cascading(cur) && !cur.leaf && View() == Put(order, f, p, es)
        invariant fresh(Repr - old(Repr))
        decreases if |cur.keys| <= order then 0 else 1 + Depth(cur)
      {
        HeightBelowRoot(Snap(), cur);
        cur := DivideInner(cur);
      }
      CascadeEnds(Snap(), order, cur);
    }

    /** Inserts one entry; splits cascade upwards from its leaf while a node holds too many keys. */
    method Insert(key: Value, row: nat)
      requires Valid()
      modifies this, Repr
      ensures Valid() && fresh(Repr - old(Repr))
      ensures View() == FlatIndex.Insert(pool.strings, order, old(View()), Entry(key, row))
    {
      hide Linked, Capped, Filled, FlatOf, Put, Sorted, Route, Pairs;
      InsertSorted(pool.strings, order, View(), Entry(key, row));
      if root == null {
        InsertFirst(key, row);
        return;
      }
      ghost var f := View();
      var leaf := FindLeaf(key);
      ghost var p := spans[leaf].from;
      ghost var es := InsertInto(leaf, key, row);
      if |leaf.keys| > order {
        Cascade(leaf, f, p, es);
      } else {
        CascadeEnds(Snap(), order, leaf);
      }
    }

    /** Takes the first matching entry out of one leaf. */
    method EraseLeaf(leaf: Node, key: Value, row: nat) returns (ok: bool)
      requires |leaf.keys| == |leaf.rows|
      modifies leaf`keys, leaf`rows
      ensures |leaf.keys| == |leaf.rows|
      ensures var es := old(Pairs(leaf.keys, leaf.rows));
              var m := MatchPos(pool.strings, es, key, row);
              && (ok <==> m < |es|)
              && Pairs(leaf.keys, leaf.rows) == Without(es, m)
      ensures |leaf.keys| <= |old(leaf.keys)|
      ensures !ok ==> leaf.keys == old(leaf.keys) && leaf.rows == old(leaf.rows)
    {
      hide Cmp, Without, Pairs;
      ghost var es := Pairs(leaf.keys, leaf.rows);
      ghost var m := MatchPos(pool.strings, es, key, row);
      ghost var ks, rs := leaf.keys, leaf.rows;
      for i := 0 to |leaf.keys|
        invariant leaf.keys == ks && leaf.rows == rs
        invariant forall j | 0 <= j < i :: !Matches(pool.strings, es[j], key, row)
      {
        assert es[i] == Entry(leaf.keys[i], leaf.rows[i]);
        if pool.Compare(leaf.keys[i], key) == 0 && leaf.rows[i] == row {
          assert i == m;
          PairsRemove(ks, rs, i);
          leaf.keys := leaf.keys[..i] + leaf.keys[i + 1..];
          leaf.rows := leaf.rows[..i] + leaf.rows[i + 1..];
          return true;
        }
      }
      PairsRemove(ks, rs, |ks|);
      return false;
    }

    /** Takes the first matching entry out of leaf number j of the tree. */
    method EraseAt(l: Node, ghost j: nat, key: Value, row: nat) returns (ok: bool)
      requires Valid() && root != null && j < |leaves| && leaves[j] == l
      modifies Repr
      ensures Shaped() && Capped(Snap(), order, null) && Filled(Snap(), order, null)
      ensures var es := old(View()).leaves[j];
              var m := MatchPos(pool.strings, es, key, row);
              && (ok <==> m < |es|)
              && View() == if ok then Flat(old(View()).leaves[j := Without(es, m)], seps) else old(View())
      ensures !ok ==> Snap() == old(Snap())
    {
      hide Linked, Capped, Filled, FlatOf, Sorted, LeafEntries;
      ghost var t := Snap();
      ChainFacts(t, j);
      ok := EraseLeaf(l, key, row);
      if ok {
        ghost var u := Rewrite(t, l, l.keys, l.rows);
        RewriteFacts(t, l, l.keys, l.rows, order);
        SnapIs(u);
      } else {
        SnapIs(t);
      }
    }

    /** Tries the leaves from the one the key routes to, along the chain. */
    method Erase(key: Value, row: nat) returns (ok: bool)
      requires Valid()
      modifies Repr
      ensures Valid() && Repr == old(Repr)
      ensures ok <==> Erases(pool.strings, old(View()), key, row)
      ensures View() == FlatIndex.Erase(pool.strings, old(View()), key, row)
    {
      hide Linked, Capped, Filled, FlatOf, Sorted, LeafEntries, FlatIndex.Erase, Erases, Route, MatchPos;
      ghost var strings, f := pool.strings, View();
      EraseSorted(strings, f, key, row);
      if root == null {
        EraseEmpty(strings, key, row);
        return false;
      }
      ghost var t := Snap();
      var leaf := FindLeaf(key);
      var l: Node? := leaf;
      ghost var j := spans[leaf].from;
      while l != null
        invariant Route(strings, f.seps, key) <= j <= |leaves| && Snap() == t
        invariant l == if j < |leaves| then leaves[j] else null
        invariant forall i | Route(strings, f.seps, key) <= i < j :: NoMatch(strings, f.leaves[i], key, row)
        decreases |leaves| - j
      {
        ok := EraseAt(l, j, key, row);
        if ok {
          EraseFound(strings, f, j, key, row);
          return true;
        }
        ChainFacts(t, j);
        l := l.next;
        j := j + 1;
      }
      EraseMissed(strings, f, key, row);
      return false;
    }

    /** Collects the rows of one leaf whose key equals `key`; `done` says that a greater key ended the
        search. */
    method ScanLeafEqual(l: Node, key: Value, ghost rest: Leaf) returns (out: seq<nat>, done: bool)
      requires |l.keys| == |l.rows|
      ensures ScanEqual(pool.strings, Pairs(l.keys, l.rows) + rest, key) ==
                out + if done then [] else ScanEqual(pool.strings, rest, key)
    {
      hide Cmp, Pairs, ScanEqual;
      ghost var es := Pairs(l.keys, l.rows);
      ghost var all := ScanEqual(pool.strings, es + rest, key);
      out := [];
      assert es[0..] == es;
      for i := 0 to |l.keys|
        invariant all == out + ScanEqual(pool.strings, es[i..] + rest, key)
      {
        ScanEqualStep(pool.strings, es, i, rest, key);
        Regroup(out, [l.rows[i]], ScanEqual(pool.strings, es[i + 1..] + rest, key));
        var c := pool.Compare(l.keys[i], key);
        if c == 0 {
          out := out + [l.rows[i]];
        }
        if c > 0 {
          return out, true;
        }
      }
      assert es[|l.keys|..] + rest == rest;
      done := false;
    }

    method FindEqual(key: Value) returns (out: seq<nat>)
      requires Valid()
      ensures out == FlatIndex.FindEqual(pool.strings, View(), key)
    {
      hide Linked, Capped, Filled, FlatOf, Sorted, LeafEntries, Route, Concat, Pairs, FlatIndex.FindEqual, EqualSoFar, ScanEqual;
      ghost var strings, f := pool.strings, View();
      out := [];
      if root == null {
        SearchEmpty(strings, key);
        return;
      }
      ghost var t := Snap();
      var l: Node? := FindLeaf(key);
      ghost var j := spans[l].from;
      EqualStarts(strings, f, key, j);
      while l != null
        invariant j <= |leaves| && l == if j < |leaves| then leaves[j] else null
        invariant EqualSoFar(strings, f, key, j, out)
        decreases |leaves| - j
      {
        ChainFacts(t, j);
        var found, done := ScanLeafEqual(l, key, Concat(f.leaves[j + 1..]));
        EqualNext(strings, f, key, j, out, found, done);
        out := out + found;
        if done {
          return;
        }
        l := l.next;
        j := j + 1;
      }
      EqualEnds(strings, f, key, j, out);
    }

    method ScanLeafRange(l: Node, b: Bounds, ghost rest: Leaf) returns (out: seq<nat>, done: bool)
      requires |l.keys| == |l.rows|
      ensures ScanRange(pool.strings, Pairs(l.keys, l.rows) + rest, b) ==
                out + if done then [] else ScanRange(pool.strings, rest, b)
    {
      hide InBounds, Cmp, Pairs, ScanRange;
      ghost var es := Pairs(l.keys, l.rows);
      ghost var all := ScanRange(pool.strings, es + rest, b);
      out := [];
      assert es[0..] == es;
      for i := 0 to |l.keys|
        invariant all == out + ScanRange(pool.strings, es[i..] + rest, b)
      {
        ScanRangeStep(pool.strings, es, i, rest, b);
        Regroup(out, [l.rows[i]], ScanRange(pool.strings, es[i + 1..] + rest, b));
        if InBounds(pool.strings, b, l.keys[i]) {
          out := out + [l.rows[i]];
        }
        if pool.Compare(l.keys[i], b.high) > 0 {
          return out, true;
        }
      }
      assert es[|l.keys|..] + rest == rest;
      done := false;
    }

    method Range(b: Bounds) returns (out: seq<nat>)
      requires Valid()
      ensures out == FlatIndex.Range(pool.strings, View(), b)
    {
      hide Linked, Capped, Filled, FlatOf, Sorted, LeafEntries, Route, Concat, Pairs, FlatIndex.Range, RangeSoFar, ScanRange;
      ghost var strings, f := pool.strings, View();
      out := [];
      if root == null {
        RangeEmpty(strings, b);
        return;
      }
      ghost var t := Snap();
      var l: Node? := FindLeaf(b.low);
      ghost var j := spans[l].from;
      RangeStarts(strings, f, b, j);
      while l != null
        invariant j <= |leaves| && l == if j < |leaves| then leaves[j] else null
        invariant RangeSoFar(strings, f, b, j, out)
        decreases |leaves| - j
      {
        ChainFacts(t, j);
        var found, done := ScanLeafRange(l, b, Concat(f.leaves[j + 1..]));
        RangeNext(strings, f, b, j, out, found, done);
        out := out + found;
        if done {
          return;
        }
        l := l.next;
        j := j + 1;
      }
      RangeEnds(strings, f, b, j, out);
    }
  }

  // ----- scanning the chain

  /** What is left to find from leaf j on completes `out`. */
  ghost predicate EqualSoFar(pool: seq<string>, f: Flat, k: Value, j: nat, out: seq<nat>) {
    Shape(f) && j <= |f.leaves| && FlatIndex.FindEqual(pool, f, k) == out + ScanEqual(pool, Concat(f.leaves[j..]), k)
  }

  ghost predicate RangeSoFar(pool: seq<string>, f: Flat, b: Bounds, j: nat, out: seq<nat>) {
    Shape(f) && j <= |f.leaves| && FlatIndex.Range(pool, f, b) == out + ScanRange(pool, Concat(f.leaves[j..]), b)
  }

  lemma EqualStarts(pool: seq<string>, f: Flat, k: Value, j: nat)
    requires Shape(f) && j == Route(pool, f.seps, k) < |f.leaves|
    ensures EqualSoFar(pool, f, k, j, [])
  {
    var found := ScanEqual(pool, Concat(f.leaves[j..]), k);
    hide ScanEqual, Concat, Route;
    assert [] + found == found;
  }

  lemma RangeStarts(pool: seq<string>, f: Flat, b: Bounds, j: nat)
    requires Shape(f) && j == Route(pool, f.seps, b.low) < |f.leaves|
    ensures RangeSoFar(pool, f, b, j, [])
  {
    var found := ScanRange(pool, Concat(f.leaves[j..]), b);
    hide ScanRange, Concat, Route;
    assert [] + found == found;
  }

  lemma EqualNext(pool: seq<string>, f: Flat, k: Value, j: nat, out: seq<nat>, found: seq<nat>, done: bool)
    requires EqualSoFar(pool, f, k, j, out) && j < |f.leaves|
    requires var rest := Concat(f.leaves[j + 1..]);
      ScanEqual(pool, f.leaves[j] + rest, k) == found + if done then [] else ScanEqual(pool, rest, k)
    ensures Shape(f)
    ensures if done then FlatIndex.FindEqual(pool, f, k) == out + found else EqualSoFar(pool, f, k, j + 1, out + found)
  {
    hide ScanEqual, Concat, FlatIndex.FindEqual, Shape;
    ConcatAround(f.leaves, j);
    Regroup(out, found, ScanEqual(pool, Concat(f.leaves[j + 1..]), k));
    assert found + [] == found;
  }

  lemma RangeNext(pool: seq<string>, f: Flat, b: Bounds, j: nat, out: seq<nat>, found: seq<nat>, done: bool)
    requires RangeSoFar(pool, f, b, j, out) && j < |f.leaves|
    requires var rest := Concat(f.leaves[j + 1..]);
      ScanRange(pool, f.leaves[j] + rest, b) == found + if done then [] else ScanRange(pool, rest, b)
    ensures Shape(f)
    ensures if done then FlatIndex.Range(pool, f, b) == out + found else RangeSoFar(pool, f, b, j + 1, out + found)
  {
    hide ScanRange, Concat, FlatIndex.Range, Shape;
    ConcatAround(f.leaves, j);
    Regroup(out, found, ScanRange(pool, Concat(f.leaves[j + 1..]), b));
    assert found + [] == found;
  }

  lemma EqualEnds(pool: seq<string>, f: Flat, k: Value, j: nat, out: seq<nat>)
    requires EqualSoFar(pool, f, k, j, out) && j == |f.leaves|
    ensures Shape(f) && FlatIndex.FindEqual(pool, f, k) == out
  {
    hide FlatIndex.FindEqual;
    NoLeavesLeft(pool, f.leaves, k);
    assert out + [] == out;
  }

  lemma RangeEnds(pool: seq<string>, f: Flat, b: Bounds, j: nat, out: seq<nat>)
    requires RangeSoFar(pool, f, b, j, out) && j == |f.leaves|
    ensures Shape(f) && FlatIndex.Range(pool, f, b) == out
  {
    hide FlatIndex.Range;
    NoLeavesLeftRange(pool, f.leaves, b);
    assert out + [] == out;
  }

  lemma ScanEqualStep(pool: seq<string>, es: Leaf, i: nat, rest: Leaf, k: Value)
    requires i < |es|
    ensures var c := Cmp(pool, es[i].key, k);
            ScanEqual(pool, es[i..] + rest, k) ==
              if c > 0 then [] else (if c == 0 then [es[i].row] else []) + ScanEqual(pool, es[i + 1..] + rest, k)
  {
    assert (es[i..] + rest)[1..] == es[i + 1..] + rest;
  }

  lemma ScanRangeStep(pool: seq<string>, es: Leaf, i: nat, rest: Leaf, b: Bounds)
    requires i < |es|
    ensures var hit := if InBounds(pool, b, es[i].key) then [es[i].row] else [];
            ScanRange(pool, es[i..] + rest, b) ==
              if Cmp(pool, es[i].key, b.high) > 0 then hit else hit + ScanRange(pool, es[i + 1..] + rest, b)
  {
    assert (es[i..] + rest)[1..] == es[i + 1..] + rest;
  }

  lemma SearchEmpty(pool: seq<string>, k: Value)
    ensures FlatIndex.FindEqual(pool, EMPTY, k) == []
  {
  }

  lemma RangeEmpty(pool: seq<string>, b: Bounds)
    ensures FlatIndex.Range(pool, EMPTY, b) == []
  {
  }

  lemma NoLeavesLeft(pool: seq<string>, ls: seq<Leaf>, k: Value)
    ensures ScanEqual(pool, Concat(ls[|ls|..]), k) == []
  {
  }

  lemma NoLeavesLeftRange(pool: seq<string>, ls: seq<Leaf>, b: Bounds)
    ensures ScanRange(pool, Concat(ls[|ls|..]), b) == []
  {
  }

  ghost predicate NoMatch(pool: seq<string>, es: Leaf, k: Value, row: nat) {
    MatchPos(pool, es, k, row) == |es|
  }

  /** Everything an erasure needs to know about the leaf it changed. */
  lemma RewriteFacts(t: Tree, n: Node, ks: seq<Value>, rs: seq<nat>, order: nat)
    requires Linked(t) && n in t.cells && n in t.spans && t.cells[n].leaf && |ks| == |rs| && |ks| <= |t.cells[n].keys|
    requires Capped(t, order, null) && Filled(t, order, null)
    ensures var u := Rewrite(t, n, ks, rs);
            && Linked(u) && Capped(u, order, null) && Filled(u, order, null)
            && t.spans[n].from < |FlatOf(t).leaves|
            && FlatOf(u) == Flat(FlatOf(t).leaves[t.spans[n].from := Pairs(ks, rs)], t.seps)
  {
    RewriteLinked(t, n, ks, rs);
    RewriteSizes(t, n, ks, rs, order);
    CascadeEnds(Rewrite(t, n, ks, rs), order, n);
  }

  lemma EraseEmpty(pool: seq<string>, k: Value, row: nat)
    ensures !Erases(pool, EMPTY, k, row) && FlatIndex.Erase(pool, EMPTY, k, row) == EMPTY
  {
  }

  /** The search reached leaf j without a match and found one there. */
  lemma EraseFound(pool: seq<string>, f: Flat, j: nat, k: Value, row: nat)
    requires Shape(f) && Route(pool, f.seps, k) <= j < |f.leaves|
    requires forall i | Route(pool, f.seps, k) <= i < j :: NoMatch(pool, f.leaves[i], k, row)
    requires MatchPos(pool, f.leaves[j], k, row) < |f.leaves[j]|
    ensures Erases(pool, f, k, row)
    ensures FlatIndex.Erase(pool, f, k, row) ==
              Flat(f.leaves[j := Without(f.leaves[j], MatchPos(pool, f.leaves[j], k, row))], f.seps)
  {
    hide Route, MatchPos, Matches, Cmp, Concat, Without, EraseLeaves;
    var p := Route(pool, f.seps, k);
    var tail := f.leaves[p..];
    forall i | 0 <= i < j - p
      ensures NoMatch(pool, tail[i], k, row)
    {
      assert NoMatch(pool, f.leaves[p + i], k, row);
    }
    EraseLeavesAt(pool, tail, j - p, k, row);
    UpdateTail(f.leaves, p, j, Without(f.leaves[j], MatchPos(pool, f.leaves[j], k, row)));
    MatchInTail(pool, tail, j - p, k, row);
  }

  lemma MatchInTail(pool: seq<string>, ls: seq<Leaf>, j: nat, k: Value, row: nat)
    requires j < |ls| && MatchPos(pool, ls[j], k, row) < |ls[j]|
    ensures MatchPos(pool, Concat(ls), k, row) < |Concat(ls)|
  {
    hide Matches, Cmp;
    ConcatAround(ls, j);
    assert ls[j][MatchPos(pool, ls[j], k, row)] in Concat(ls);
    MatchPosFinds(pool, Concat(ls), k, row);
  }

  lemma UpdateTail<T>(s: seq<T>, p: nat, j: nat, x: T)
    requires p <= j < |s|
    ensures s[..p] + s[p..][j - p := x] == s[j := x]
  {
  }

  lemma {:induction false} EraseLeavesAt(pool: seq<string>, ls: seq<Leaf>, j: nat, k: Value, row: nat)
    requires j < |ls| && (forall i | 0 <= i < j :: NoMatch(pool, ls[i], k, row))
    requires MatchPos(pool, ls[j], k, row) < |ls[j]|
    ensures EraseLeaves(pool, ls, k, row) == ls[j := Without(ls[j], MatchPos(pool, ls[j], k, row))]
  {
    if j > 0 {
      assert NoMatch(pool, ls[0], k, row);
      EraseLeavesAt(pool, ls[1..], j - 1, k, row);
    }
  }

  /** The search went through the whole chain without a match. */
  lemma EraseMissed(pool: seq<string>, f: Flat, k: Value, row: nat)
    requires Shape(f)
    requires forall i | Route(pool, f.seps, k) <= i < |f.leaves| :: NoMatch(pool, f.leaves[i], k, row)
    ensures !Erases(pool, f, k, row) && FlatIndex.Erase(pool, f, k, row) == f
  {
    hide Route, MatchPos, Matches, Cmp, Concat, EraseLeaves;
    if f.leaves == [] {
      NothingMatches(pool, f, k, row);
    } else {
      var p := Route(pool, f.seps, k);
      var tail := f.leaves[p..];
      assert f.leaves[..p] + tail == f.leaves;
      forall i | 0 <= i < |tail|
        ensures NoMatch(pool, tail[i], k, row)
      {
        assert NoMatch(pool, f.leaves[p + i], k, row);
      }
      EraseLeavesNone(pool, tail, k, row);
      MatchPosFinds(pool, Concat(tail), k, row);
    }
  }

  lemma NothingMatches(pool: seq<string>, f: Flat, k: Value, row: nat)
    requires Shape(f) && f.leaves == []
    ensures !Erases(pool, f, k, row)
  {
    hide Matches, Cmp;
  }

  lemma {:induction false} EraseLeavesNone(pool: seq<string>, ls: seq<Leaf>, k: Value, row: nat)
    requires forall i | 0 <= i < |ls| :: NoMatch(pool, ls[i], k, row)
    ensures EraseLeaves(pool, ls, k, row) == ls
    ensures forall e | e in Concat(ls) :: !Matches(pool, e, k, row)
  {
    hide Matches, Cmp;
    if ls != [] {
      assert NoMatch(pool, ls[0], k, row);
      EraseLeavesNone(pool, ls[1..], k, row);
    }
  }

  /** What the chain offers at position j. */
  lemma ChainFacts(t: Tree, j: nat)
    requires Linked(t) && j < |t.leaves|
    ensures var l := t.leaves[j];
            && l in t.cells && l in t.spans && t.cells[l].leaf && t.spans[l].from == j
            && |t.cells[l].keys| == |t.cells[l].rows|
            && t.cells[l].next == (if j + 1 < |t.leaves| then t.leaves[j + 1] else null)
            && FlatOf(t).leaves[j] == Pairs(t.cells[l].keys, t.cells[l].rows)
  {
    assert ChainOk(t, j);
    LeafAt(t, t.leaves[j]);
  }

  lemma PutAfterUpdate(order: nat, f: Flat, p: nat, es: Leaf)
    requires Shape(f) && p < |f.leaves| && es != []
    ensures Put(order, Flat(f.leaves[p := es], f.seps), p, es) == Put(order, f, p, es)
  {
    var g := f.leaves[p := es];
    assert g[..p] == f.leaves[..p] && g[p + 1..] == f.leaves[p + 1..];
  }

  lemma CascadeEnds(t: Tree, order: nat, n: Node)
    requires Capped(t, order, n) && n in t.cells && |t.cells[n].keys| <= order
    ensures Capped(t, order, null)
  {
  }

  lemma SingleLeaf(t: Tree)
    requires t.leaves == [t.root] && t.seps == [] && t.spans == map[t.root := Span(0, 1, 0)]
    requires t.cells.Keys == {t.root} && t.cells[t.root].leaf && t.cells[t.root].parent == null
    requires t.cells[t.root].ch == [] && t.cells[t.root].next == null
    requires |t.cells[t.root].keys| == |t.cells[t.root].rows|
    ensures Linked(t) && FlatOf(t) == Flat([Pairs(t.cells[t.root].keys, t.cells[t.root].rows)], [])
  {
    assert NodeOk(t, t.root) && UpOk(t, t.root) && ChainOk(t, 0);
    assert LeafEntries(t, 0) == Pairs(t.cells[t.root].keys, t.cells[t.root].rows);
  }

  lemma RewriteSizes(t: Tree, n: Node, ks: seq<Value>, rs: seq<nat>, order: nat)
    requires n in t.cells && t.cells[n].leaf && Capped(t, order, null) && Filled(t, order, null)
    ensures Capped(Rewrite(t, n, ks, rs), order, n) && Filled(Rewrite(t, n, ks, rs), order, null)
    ensures |t.cells[n].keys| <= order
  {
  }

  /** Climbing from parent to parent ends at the root, so no node stands higher. */
  lemma {:induction false} HeightBelowRoot(t: Tree, n: Node)
    requires Linked(t) && n in t.cells
    ensures n in t.spans && t.root in t.spans && t.spans[n].height <= t.spans[t.root].height
    decreases |Higher(t, n)|
  {
    assert UpOk(t, n);
    if n != t.root {
      var p := t.cells[n].parent;
      ParentAbove(t, n);
      assert p in Higher(t, n) && p !in Higher(t, p);
      ProperSubset(Higher(t, p), Higher(t, n));
      HeightBelowRoot(t, p);
    }
  }

  ghost function Higher(t: Tree, n: Node): set<Node>
    requires Known(t) && n in t.cells
  {
    set x | x in t.cells && t.spans[x].height > t.spans[n].height
  }

  lemma ProperSubset<T>(a: set<T>, b: set<T>)
    requires a < b
    ensures |a| < |b|
  {
    assert b == a + (b - a);
    assert |b| == |a| + |b - a|;
  }

  ghost function UpperLeaf(t: Tree, n: Node): Cell
    requires n in t.cells && |t.cells[n].keys| >= 2 && |t.cells[n].rows| == |t.cells[n].keys|
  {
    var c := t.cells[n];
    Cell(true, null, c.keys[|c.keys| / 2..], c.rows[|c.keys| / 2..], [], c.next)
  }

  ghost function LowerLeaf(t: Tree, n: Node, r: Node): Cell
    requires n in t.cells && |t.cells[n].keys| >= 2 && |t.cells[n].rows| == |t.cells[n].keys|
  {
    var c := t.cells[n];
    c.(keys := c.keys[..|c.keys| / 2], rows := c.rows[..|c.keys| / 2], next := r)
  }

  ghost function UpperHalf(t: Tree, n: Node): Cell
    requires n in t.cells && |t.cells[n].keys| >= 2 && |t.cells[n].ch| == |t.cells[n].keys| + 1
  {
    var c := t.cells[n];
    Cell(false, null, c.keys[|c.keys| / 2 + 1..], [], c.ch[|c.keys| / 2 + 1..], null)
  }

  ghost function HalvedCell(t: Tree, n: Node, r: Node, x: Node): Cell
    requires n in t.cells && x in t.cells && |t.cells[n].keys| >= 2 && |t.cells[n].ch| == |t.cells[n].keys| + 1
  {
    var c := t.cells[n];
    var mid := |c.keys| / 2;
    if x == n then c.(keys := c.keys[..mid], ch := c.ch[..mid + 1])
    else if x in c.ch[mid + 1..] then t.cells[x].(parent := r)
    else t.cells[x]
  }

  /** What the cascade reads off a node before splitting it. */
  lemma NodeFacts(t: Tree, n: Node)
    requires Linked(t) && n in t.cells
    ensures var c := t.cells[n];
            && Known(t) && n in t.spans && t.root in t.spans
            && (c.parent == null <==> n == t.root)
            && (c.parent != null ==>
                  && c.parent in t.cells && c.parent in t.spans && !t.cells[c.parent].leaf && n in t.cells[c.parent].ch
                  && |t.cells[c.parent].ch| == |t.cells[c.parent].keys| + 1 && c.parent != n
                  && t.spans[c.parent].height == t.spans[n].height + 1)
            && (!c.leaf ==> |c.ch| == |c.keys| + 1 && forall x | x in c.ch :: x in t.cells && x != n && x != c.parent)
            && (c.leaf ==> |c.rows| == |c.keys| && c.ch == [])
  {
    assert NodeOk(t, n) && UpOk(t, n);
    if t.cells[n].parent != null { ParentAbove(t, n); }
    if !t.cells[n].leaf { ChildrenBelow(t, n); }
  }

  lemma PairsRemove(ks: seq<Value>, rs: seq<nat>, i: nat)
    requires |ks| == |rs|
    ensures Without(Pairs(ks, rs), i) == Pairs(Without(ks, i), Without(rs, i))
    ensures i < |ks| ==> Without(ks, i) == ks[..i] + ks[i + 1..] && Without(rs, i) == rs[..i] + rs[i + 1..]
    ensures i >= |ks| ==> Without(Pairs(ks, rs), i) == Pairs(ks, rs)
  {
  }

  lemma PairsInsert(ks: seq<Value>, rs: seq<nat>, pos: nat, key: Value, row: nat)
    requires |ks| == |rs| && pos <= |ks|
    ensures Pairs(ks[..pos] + [key] + ks[pos..], rs[..pos] + [row] + rs[pos..]) ==
              Pairs(ks, rs)[..pos] + [Entry(key, row)] + Pairs(ks, rs)[pos..]
  {
  }

  lemma FilledParent(t: Tree, order: nat, p: Node)
    requires Filled(t, order, null) && p in t.cells && !t.cells[p].leaf
    ensures Filled(t, order, p) && |t.cells[p].keys| + 1 >= if p == t.root then 1 else order / 2
  {
  }

  lemma AboveRoot(t: Tree, r: Node, order: nat)
    requires Linked(t) && r !in t.cells && Capped(t, order, t.root) && Filled(t, order, null)
    requires |t.cells[t.root].keys| == order + 1
    ensures Linked(GrowRoot(t, r)) && FlatOf(GrowRoot(t, r)) == FlatOf(t)
    ensures Capped(GrowRoot(t, r), order, t.root) && Filled(GrowRoot(t, r), order, r)
  {
    GrowRootLinked(t, r);
    GrowRootFlat(t, r);
    GrowRootSizes(t, r, order);
  }

  /** What a node looks like after an inner root was split below a new root. */
  ghost function RootInnerCell(t: Tree, up: Node, r: Node, x: Node): Cell
    requires t.root in t.cells && x in t.cells.Keys + {up, r}
    requires |t.cells[t.root].keys| >= 2 && |t.cells[t.root].ch| == |t.cells[t.root].keys| + 1
  {
    if x == up then Cell(false, null, [t.cells[t.root].keys[|t.cells[t.root].keys| / 2]], [], [t.root, r], null)
    else if x == r then UpperHalf(t, t.root).(parent := up)
    else if x == t.root then HalvedCell(t, t.root, r, x).(parent := up)
    else HalvedCell(t, t.root, r, x)
  }

  lemma RootInnerCellIs(t: Tree, up: Node, r: Node, x: Node)
    requires t.root in t.cells && t.root in t.spans && up != r && up !in t.cells && r !in t.cells
    requires |t.cells[t.root].keys| >= 2 && |t.cells[t.root].ch| == |t.cells[t.root].keys| + 1
    requires Divisible(GrowRoot(t, up), t.root, up, r, 0) && x in t.cells.Keys + {up, r}
    ensures x in GrowRoot(t, up).cells.Keys + {r}
    ensures SplitInnerCell(GrowRoot(t, up), t.root, up, r, 0, x) == RootInnerCell(t, up, r, x)
  {
    hide Divisible;
  }

  lemma RootInnerCells(t: Tree, up: Node, r: Node)
    requires t.root in t.cells && t.root in t.spans && up != r && up !in t.cells && r !in t.cells
    requires |t.cells[t.root].keys| >= 2 && |t.cells[t.root].ch| == |t.cells[t.root].keys| + 1
    requires Divisible(GrowRoot(t, up), t.root, up, r, 0)
    ensures var u := SplitInner(GrowRoot(t, up), t.root, up, r, 0);
            && u.root == up && u.leaves == t.leaves && u.seps == t.seps && u.cells.Keys == t.cells.Keys + {up, r}
            && forall x {:trigger u.cells[x]} | x in t.cells.Keys + {up, r} :: u.cells[x] == RootInnerCell(t, up, r, x)
  {
    hide Divisible, SplitInner, SplitInnerCell, RootInnerCell;
    SplitInnerCells(GrowRoot(t, up), t.root, up, r, 0);
    forall x | x in t.cells.Keys + {up, r}
      ensures SplitInner(GrowRoot(t, up), t.root, up, r, 0).cells[x] == RootInnerCell(t, up, r, x)
    {
      RootInnerCellIs(t, up, r, x);
    }
  }

  /** Splitting an overfull inner root below a new root. */
  lemma RootInnerFacts(t: Tree, up: Node, r: Node, order: nat)
    requires Linked(t) && up !in t.cells && r !in t.cells && up != r && order >= 4
    requires !t.cells[t.root].leaf && |t.cells[t.root].keys| == order + 1
    requires Capped(t, order, t.root) && Filled(t, order, null)
    ensures Divisible(GrowRoot(t, up), t.root, up, r, 0)
    ensures var u := SplitInner(GrowRoot(t, up), t.root, up, r, 0);
            && Linked(u) && FlatOf(u) == FlatOf(t) && Capped(u, order, up) && Filled(u, order, null)
            && |u.cells[up].keys| == 1 && u.root == up && up in u.cells && up in u.spans && !u.cells[up].leaf
  {
    AboveRoot(t, up, order);
    InnerSplitFacts(GrowRoot(t, up), t.root, up, r, 0, order);
  }

  /** An overfull inner node may be split below its parent. */
  lemma InnerSplitReady(t: Tree, n: Node, p: Node, r: Node, i: nat)
    requires Linked(t) && n in t.cells && p in t.cells && r !in t.cells
    requires !t.cells[n].leaf && t.cells[n].parent == p && i < |t.cells[p].ch| && t.cells[p].ch[i] == n
    requires |t.cells[n].keys| >= 2
    ensures Divisible(t, n, p, r, i) && SplitsInner(t, n, p, r, i) && n != t.root
  {
    ParentAbove(t, n);
    assert NodeOk(t, n) && UpOk(t, n);
    var c := t.cells[n];
    assert IsChild(t, n, c.ch[|c.keys| / 2]);
    assert n != p by { ChildrenBelow(t, n); }
  }

  lemma RootSplitReady(t: Tree, up: Node, r: Node)
    requires Linked(t) && up !in t.cells && r !in t.cells && up != r
    requires !t.cells[t.root].leaf && |t.cells[t.root].keys| >= 2
    ensures Divisible(GrowRoot(t, up), t.root, up, r, 0)
  {
    GrowRootLinked(t, up);
    hide Linked, Divisible;
    InnerSplitReady(GrowRoot(t, up), t.root, up, r, 0);
  }

  /** Everything the cascade needs to know about one inner split. */
  lemma InnerSplitFacts(t: Tree, n: Node, p: Node, r: Node, i: nat, order: nat)
    requires Linked(t) && n in t.cells && p in t.cells && r !in t.cells && order >= 4
    requires !t.cells[n].leaf && t.cells[n].parent == p && i < |t.cells[p].ch| && t.cells[p].ch[i] == n
    requires |t.cells[n].keys| == order + 1 && Capped(t, order, n) && Filled(t, order, p)
    requires |t.cells[p].keys| + 1 >= if p == t.root then 1 else order / 2
    ensures Divisible(t, n, p, r, i)
    ensures var u := SplitInner(t, n, p, r, i);
            && Linked(u) && FlatOf(u) == FlatOf(t) && Capped(u, order, p) && Filled(u, order, null)
            && p in u.cells && !u.cells[p].leaf && |u.cells[p].keys| <= order + 1 && u.root == t.root
            && p in u.spans && u.root in u.spans
            && u.spans[p] == t.spans[p] && t.spans[p].height == t.spans[n].height + 1
            && u.spans[u.root].height == t.spans[t.root].height
  {
    ParentAbove(t, n);
    InnerSplitReady(t, n, p, r, i);
    SplitInnerLinked(t, n, p, r, i);
    SplitInnerFlat(t, n, p, r, i);
    SplitInnerSizes(t, n, p, r, i, order);
  }

  lemma SplitInnerCells(t: Tree, n: Node, p: Node, r: Node, i: nat)
    requires Divisible(t, n, p, r, i)
    ensures var u := SplitInner(t, n, p, r, i);
            && u.root == t.root && u.leaves == t.leaves && u.seps == t.seps && u.cells.Keys == t.cells.Keys + {r}
            && forall x {:trigger u.cells[x]} | x in t.cells.Keys + {r} :: u.cells[x] == SplitInnerCell(t, n, p, r, i, x)
  {
  }

  lemma SplitLeafCells(t: Tree, n: Node, p: Node, r: Node, i: nat)
    requires SplitsLeaf(t, n, p, r, i)
    ensures var u := SplitLeaf(t, n, p, r, i);
            && u.root == t.root && u.cells.Keys == t.cells.Keys + {r}
            && forall x {:trigger u.cells[x]} | x in t.cells.Keys + {r} :: u.cells[x] == SplitLeafCell(t, n, p, r, i, x)
  {
    hide SplitsLeaf;
  }

  /** What a node looks like after a root that is a leaf was split below a new root. */
  ghost function RootLeafCell(t: Tree, up: Node, r: Node, x: Node): Cell
    requires t.root in t.cells && x in t.cells.Keys + {up, r}
    requires |t.cells[t.root].keys| >= 2 && |t.cells[t.root].rows| == |t.cells[t.root].keys|
  {
    if x == up then Cell(false, null, [t.cells[t.root].keys[|t.cells[t.root].keys| / 2]], [], [t.root, r], null)
    else if x == r then UpperLeaf(t, t.root).(parent := up)
    else if x == t.root then LowerLeaf(t, t.root, r).(parent := up)
    else t.cells[x]
  }

  lemma RootLeafCells(t: Tree, up: Node, r: Node)
    requires t.root in t.cells && t.root in t.spans && up != r && up !in t.cells && r !in t.cells
    requires |t.cells[t.root].keys| >= 2 && |t.cells[t.root].rows| == |t.cells[t.root].keys|
    requires SplitsLeaf(GrowRoot(t, up), t.root, up, r, 0)
    ensures var u := SplitLeaf(GrowRoot(t, up), t.root, up, r, 0);
            && u.root == up && u.cells.Keys == t.cells.Keys + {up, r}
            && forall x {:trigger u.cells[x]} | x in t.cells.Keys + {up, r} :: u.cells[x] == RootLeafCell(t, up, r, x)
  {
    var g := GrowRoot(t, up);
    SplitLeafCells(g, t.root, up, r, 0);
    hide SplitsLeaf, SplitLeaf;
    forall x | x in t.cells.Keys + {up, r}
      ensures SplitLeafCell(g, t.root, up, r, 0, x) == RootLeafCell(t, up, r, x)
    {
    }
  }

  /** Splitting an overfull root that is a leaf below a new root. */
  lemma RootLeafFacts(t: Tree, up: Node, r: Node, order: nat)
    requires Linked(t) && up !in t.cells && r !in t.cells && up != r && order >= 4
    requires t.cells[t.root].leaf && |t.cells[t.root].keys| == order + 1
    requires Capped(t, order, t.root) && Filled(t, order, null)
    ensures SplitsLeaf(GrowRoot(t, up), t.root, up, r, 0)
    ensures var u := SplitLeaf(GrowRoot(t, up), t.root, up, r, 0);
            && Linked(u) && Capped(u, order, up) && Filled(u, order, null)
            && |u.cells[up].keys| == 1 && u.root == up && up in u.cells && up in u.spans && !u.cells[up].leaf
            && t.spans[t.root].from < |FlatOf(t).leaves|
            && var leaf := Pairs(t.cells[t.root].keys, t.cells[t.root].rows);
               leaf != [] && FlatOf(u) == Put(order, FlatOf(t), t.spans[t.root].from, leaf)
  {
    AboveRoot(t, up, order);
    LeafSplitFacts(GrowRoot(t, up), t.root, up, r, 0, order);
    hide SplitLeaf, Put;
  }

  /** An overfull leaf may be split below its parent. */
  lemma LeafSplitReady(t: Tree, n: Node, p: Node, r: Node, i: nat)
    requires Linked(t) && n in t.cells && p in t.cells && r !in t.cells
    requires t.cells[n].leaf && t.cells[n].parent == p && i < |t.cells[p].ch| && t.cells[p].ch[i] == n
    requires |t.cells[n].keys| >= 2
    ensures SplitsLeaf(t, n, p, r, i)
  {
    ParentAbove(t, n);
    NodeFacts(t, n);
    LeafAt(t, n);
  }

  lemma RootLeafReady(t: Tree, up: Node, r: Node)
    requires Linked(t) && up !in t.cells && r !in t.cells && up != r
    requires t.cells[t.root].leaf && |t.cells[t.root].keys| >= 2
    ensures SplitsLeaf(GrowRoot(t, up), t.root, up, r, 0)
  {
    GrowRootLinked(t, up);
    hide Linked, SplitsLeaf;
    LeafSplitReady(GrowRoot(t, up), t.root, up, r, 0);
  }

  /** Everything the cascade needs to know about one leaf split. */
  lemma LeafSplitFacts(t: Tree, n: Node, p: Node, r: Node, i: nat, order: nat)
    requires Linked(t) && n in t.cells && p in t.cells && r !in t.cells && order >= 4
    requires t.cells[n].leaf && t.cells[n].parent == p && i < |t.cells[p].ch| && t.cells[p].ch[i] == n
    requires |t.cells[n].keys| == order + 1 && Capped(t, order, n) && Filled(t, order, p)
    requires |t.cells[p].keys| + 1 >= if p == t.root then 1 else order / 2
    ensures SplitsLeaf(t, n, p, r, i)
    ensures var u := SplitLeaf(t, n, p, r, i);
            && Linked(u) && Capped(u, order, p) && Filled(u, order, null)
            && p in u.cells && !u.cells[p].leaf && |u.cells[p].keys| <= order + 1 && u.root == t.root
            && |u.cells[p].keys| == |t.cells[p].keys| + 1
            && p in u.spans && u.root in u.spans
            && u.spans[p].height == t.spans[p].height == t.spans[n].height + 1
            && u.spans[u.root].height == t.spans[t.root].height
            && t.spans[n].from < |FlatOf(t).leaves|
            && var leaf := Pairs(t.cells[n].keys, t.cells[n].rows);
               leaf != [] && FlatOf(u) == Put(order, FlatOf(t), t.spans[n].from, leaf)
  {
    ParentAbove(t, n);
    NodeFacts(t, n);
    LeafAt(t, n);
    LeafSplitReady(t, n, p, r, i);
    SplitLeafKnown(t, n, p, r, i);
    hide Linked, NodeOk, UpOk, InnerNode, LeafNode, Capped, Filled, FlatOf, Put, SplitLeafCell;
    SplitLeafLinked(t, n, p, r, i);
    SplitLeafFlat(t, n, p, r, i, order);
    SplitLeafSizes(t, n, p, r, i, order);
  }
}
