/** Whole histories of an index object: whatever calls a client makes, the tree on the heap stays well
    formed and stands for the flat index that the same history describes. */
module IndexHistory {
  import opened StringPools
  import opened FlatIndex
  import opened FlatHistory
  import opened TreeShape
  import opened TreeView
  import opened BPlusTree

  /** An index and the pool its comparator reads. */
  ghost function StateOf(ix: BPlusTreeIndex): State
    requires ix.Shaped()
    reads ix, ix.Repr, ix.pool
  {
    State(ix.pool.strings, ix.View())
  }

  /** The tree is as high as (floor(order/2)+1)^(height-1) * 2 leaves allow, and no higher. */
  ghost predicate HeightWithin(ix: BPlusTreeIndex, n: nat)
    requires ix.Shaped()
    reads ix, ix.Repr
  {
    ix.root != null ==>
      && ix.root in ix.spans
      && var h := ix.spans[ix.root].height;
         h > 0 ==> 2 * Power(ix.order / 2 + 1, h - 1) <= n
  }

  /** The pool that the index compares in grows. */
  method PerformIntern(ix: BPlusTreeIndex, s: string, ghost n: nat)
    requires ix.Valid() && ix.pool.Valid() && Sound(ix.order, StateOf(ix), n)
    modifies ix.pool
    ensures ix.Valid() && ix.pool.Valid()
    ensures StateOf(ix) == Step(ix.order, old(StateOf(ix)), Intern(s))
  {
    hide Sorted, Sound, AllInterned, Bounded, Linked, Capped, Filled, FlatOf, InsertsSinceClear, HeightWithin;
    SoundIsSorted(ix.order, StateOf(ix), Intern(s), n);
    var _ := ix.pool.Intern(s);
  }

  /** One call, carried out on the tree. */
  method Perform(ix: BPlusTreeIndex, op: Op, ghost n: nat)
    requires ix.Valid() && ix.pool.Valid() && Sound(ix.order, StateOf(ix), n) && OpOk(ix.pool.strings, op)
    modifies ix, ix.Repr, ix.pool
    ensures ix.Valid() && ix.pool.Valid() && fresh(ix.Repr - old(ix.Repr))
    ensures StateOf(ix) == Step(ix.order, old(StateOf(ix)), op)
    ensures Sound(ix.order, StateOf(ix), InsertsSinceClear(n, [op]))
  {
    StepSound(ix.order, StateOf(ix), op, n);
    hide Sorted, Sound, AllInterned, Bounded, Linked, Capped, Filled, FlatOf, FlatIndex.Insert, FlatIndex.Erase,
         InsertsSinceClear, HeightWithin;
    match op
    case Ins(k, row) =>
      ix.Insert(k, row);
    case Del(k, row) =>
      var _ := ix.Erase(k, row);
    case Clear =>
      ix.Clear();
    case Intern(s) =>
      PerformIntern(ix, s, n);
  }

  lemma SoundIsSorted(order: nat, st: State, op: Op, n: nat)
    requires Sound(order, st, n) && order >= 1 && op.Intern?
    ensures Sorted(Step(order, st, op).pool, st.flat)
  {
    StepSound(order, st, op, n);
  }

  /** From any sound state, and so from a new index, every sequence of calls with interned keys keeps the
      tree valid (one depth, n+1 children per n keys, bounded and sufficiently filled nodes, matching links,
      separators and chain, see `Valid`), makes the flat index the history describes out of it, and leaves
      it no higher than logarithmic in the number of insertions since the last clearing. */
  method PerformAll(ix: BPlusTreeIndex, ops: seq<Op>, ghost n: nat)
    requires ix.Valid() && ix.pool.Valid() && Sound(ix.order, StateOf(ix), n) && OpsOk(ix.pool.strings, ops)
    modifies ix, ix.Repr, ix.pool
    ensures ix.Valid() && ix.pool.Valid() && fresh(ix.Repr - old(ix.Repr))
    ensures StateOf(ix) == Run(ix.order, old(StateOf(ix)), ops)
    ensures HeightWithin(ix, InsertsSinceClear(n, ops))
    decreases |ops|
  {
    if ops == [] {
      HeightOfSound(ix, n);
    } else {
      Perform(ix, ops[0], n);
      assert [ops[0]][1..] == [];
      ghost var m := InsertsSinceClear(n, [ops[0]]);
      assert InsertsSinceClear(n, ops) == InsertsSinceClear(m, ops[1..]);
      hide Step, Sound, Sorted;
      PerformAll(ix, ops[1..], m);
    }
  }

  lemma HeightOfSound(ix: BPlusTreeIndex, n: nat)
    requires ix.Valid() && Sound(ix.order, StateOf(ix), n)
    ensures HeightWithin(ix, n)
  {
    if ix.root != null && ix.spans[ix.root].height > 0 {
      HeightBound(ix.Snap(), ix.order);
    }
  }

  /** A new index is sound. */
  method NewIndex(pool: StringPool, order: int) returns (ix: BPlusTreeIndex)
    requires pool.Valid()
    ensures fresh(ix) && ix.Valid() && fresh(ix.Repr) && ix.pool == pool
    ensures StateOf(ix) == State(pool.strings, EMPTY) && Sound(ix.order, StateOf(ix), 0)
  {
    ix := new BPlusTreeIndex(pool, order);
  }
}
