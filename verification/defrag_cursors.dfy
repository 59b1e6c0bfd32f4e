/**
 * defrag as its node cursors actually move. The scan keeps `checkedIndex` and
 * `runningIndex` for the list operations, but compares blocks through the
 * cursors `curCheked` and `curRunning`, and the header of the inner `for`
 * loop advances `curRunning` once more after every pass of its body. So the
 * cursor runs ahead of `runningIndex`, a merge can remove a block other than
 * the one it joined, and the header dereferences a null cursor whenever the
 * body has just stepped past the last block.
 *
 * `curCheked` is always the node at `checkedIndex` (it is recomputed from the
 * head after each merge), so only the position of `curRunning` is kept apart.
 */
module DefragCursors {
  import opened Blocks
  import MemoryModel

  /** How the scan ends, with the free list as it then is: normally, or by dereferencing null. */
  datatype Scan = Finished(list: seq<Block>) | NullDereference(list: seq<Block>)

  /**
   * The inner loop at outer index `c`, with `curRunning` at position `p`
   * (`|s|` for null) and `runningIndex` equal to `ri`. A merge joins the block
   * under the cursor to block `c` but removes the block at `ri`.
   */
  function Inner(s: seq<Block>, c: nat, p: nat, ri: nat): (r: Scan)
    requires c < ri <= p <= |s|
    ensures c < |r.list| <= |s|
    decreases |s|, |s| - p
  {
    if p == |s| then Finished(s)
    else if s[p].base == s[c].End() then
      var t := Remove(Remove(Insert(s, c, Block(s[c].base, s[c].len + s[p].len)), ri + 1), c + 1);
      // curRunning is set to the node after block c; the loop header then steps past it
      if c + 1 == |t| then NullDereference(t)
      else Inner(t, c, c + 2, c + 1)
    else
      // the body steps to the next node; the loop header then steps past it
      if p + 1 == |s| then NullDereference(s)
      else Inner(s, c, p + 2, ri + 1)
  }

  /** The outer loop from outer index `c` on, entered while a block follows `c`. */
  function Outer(s: seq<Block>, c: nat): (r: Scan)
    requires c + 1 < |s|
    ensures |r.list| <= |s|
    decreases |s| - c
  {
    match Inner(s, c, c + 1, c + 1)
    case NullDereference(t) => NullDereference(t)
    case Finished(t) =>
      // curRunning := curCheked.next.next; curCheked := curCheked.next. The inner
      // loop only finishes with a block after `c`, so this dereference never
      // fails and the first branch is never taken; it stands for line 201.
      if c + 1 == |t| then NullDereference(t)
      else if c + 2 < |t| then Outer(t, c + 1)
      else Finished(t)
  }

  /** defrag on a non-empty free list, as the cursors run. */
  function Defrag(s: seq<Block>): (r: Scan)
    requires s != []
    ensures |r.list| <= |s|
  {
    if |s| == 1 then Finished(s) else Outer(s, 0)
  }

  /**
   * Every free list of two blocks makes defrag dereference null: whether or
   * not the two are merged, the body leaves the cursor past the end and the
   * loop header steps from there.
   */
  lemma TwoBlocksThrow(x: Block, y: Block)
    ensures Defrag([x, y]).NullDereference?
  {
    var s := [x, y];
    if y.base == x.End() {
      var t := Remove(Remove(Insert(s, 0, Block(x.base, x.len + y.len)), 2), 1);
      assert |t| == 1;
      assert Inner(s, 0, 1, 1) == NullDereference(t);
    } else {
      assert Inner(s, 0, 1, 1) == NullDereference(s);
    }
  }

  /**
   * With no block after `c` starting where block `c` ends, the inner loop only
   * steps the cursor two places at a time: it finishes when it starts an even
   * number of places before the end and dereferences null otherwise.
   */
  lemma {:induction false} InnerNoMerge(s: seq<Block>, c: nat, p: nat, ri: nat)
    requires c < ri <= p <= |s|
    requires forall j :: c < j < |s| ==> s[j].base != s[c].End()
    ensures Inner(s, c, p, ri) == if (|s| - p) % 2 == 0 then Finished(s) else NullDereference(s)
    decreases |s| - p
  {
    if p < |s| && p + 1 < |s| {
      InnerNoMerge(s, c, p + 2, ri + 1);
    }
  }

  lemma {:induction false} OuterNoMerge(s: seq<Block>, c: nat)
    requires c + 1 < |s| && MemoryModel.NoForwardAdjacency(s)
    ensures Outer(s, c).NullDereference?
    decreases |s| - c
  {
    InnerNoMerge(s, c, c + 1, c + 1);
    if (|s| - (c + 1)) % 2 == 0 {
      OuterNoMerge(s, c + 1);
    }
  }

  /**
   * A free list of two or more blocks with nothing to merge makes defrag
   * dereference null: each pass moves the cursor two blocks at a time, and the
   * last pass starts with it on the last block, which the body steps past.
   */
  lemma NoMergeAlwaysThrows(s: seq<Block>)
    requires |s| >= 2 && MemoryModel.NoForwardAdjacency(s)
    ensures Defrag(s).NullDereference?
  {
    OuterNoMerge(s, 0);
  }

  /**
   * On the free list (0,10), (50,5), (70,5), (10,5) the cursor joins (10,5) to
   * (0,10) while `runningIndex` points at (70,5), which is removed instead:
   * the joined block overlaps (10,5), (70,5) is lost, and the scan then
   * dereferences null. The index scan merges (10,5) and keeps the partition.
   */
  lemma CursorScanCorrupts()
    ensures Defrag([Block(0, 10), Block(50, 5), Block(70, 5), Block(10, 5)])
         == NullDereference([Block(0, 15), Block(50, 5), Block(10, 5)])
    ensures !Disjoint([Block(0, 15), Block(50, 5), Block(10, 5)])
    ensures MemoryModel.Coalesce([Block(0, 10), Block(50, 5), Block(70, 5), Block(10, 5)])
         == [Block(0, 15), Block(50, 5), Block(70, 5)]
  {
    var s := [Block(0, 10), Block(50, 5), Block(70, 5), Block(10, 5)];
    var t := [Block(0, 15), Block(50, 5), Block(10, 5)];
    assert Remove(Remove(Insert(s, 0, Block(0, 15)), 3), 1) == t;
    assert Inner(s, 0, 3, 2) == Inner(t, 0, 2, 1) == NullDereference(t);
    assert Inner(s, 0, 1, 1) == Inner(s, 0, 3, 2);
    assert !Apart(t[0], t[2]);
    var u := [Block(0, 15), Block(50, 5), Block(70, 5)];
    assert MemoryModel.Merge(s, 0, 3) == u;
    assert MemoryModel.Inner(s, 0, 1) == MemoryModel.Inner(s, 0, 3) == MemoryModel.Inner(u, 0, 1) == u;
    assert MemoryModel.Inner(u, 1, 2) == u;
  }

  /**
   * Where the cursors do not run off the list they can agree with the index
   * scan: (0,10), (10,5), (20,5) becomes (0,15), (20,5) either way.
   */
  lemma CursorScanAgreesOnExample()
    ensures Defrag([Block(0, 10), Block(10, 5), Block(20, 5)])
         == Finished(MemoryModel.Coalesce([Block(0, 10), Block(10, 5), Block(20, 5)]))
  {
    var s := [Block(0, 10), Block(10, 5), Block(20, 5)];
    var t := [Block(0, 15), Block(20, 5)];
    assert Remove(Remove(Insert(s, 0, Block(0, 15)), 2), 1) == t;
    assert Inner(s, 0, 1, 1) == Inner(t, 0, 2, 1) == Finished(t);
    MemoryModel.CoalesceExample();
  }
}
