/**
 * The memory space object. It owns a free list and an allocated list of
 * blocks, which malloc, free and defrag change in place. Malloc, Free and
 * Defrag are proved to leave the lists of MemoryModel.Malloc, MemoryModel.Free
 * and MemoryModel.Defrag and to keep them a partition of [0, maxSize); the
 * helpers Allocate, TakeWhole, SplitAt and JoinFree state what their list
 * operations do.
 */
module Allocator {
  import opened Blocks
  import MemoryModel
  import opened Wrappers

  class MemorySpace {
    /** The blocks that are presently allocated, in the order malloc handed them out. */
    var allocatedList: seq<Block>

    /** The blocks that are presently free, in scan order. */
    var freeList: seq<Block>

    /** The size of the managed space, given at construction. */
    ghost const maxSize: nat

    /** The two lists as a value. */
    ghost function State(): MemoryModel.Space
      reads this
    {
      MemoryModel.Space(freeList, allocatedList)
    }

    /** The blocks of both lists partition [0, maxSize). */
    ghost predicate Valid()
      reads this
    {
      MemoryModel.Partitioned(State(), maxSize)
    }

    /** An empty allocated list and one free block covering the whole space. */
    constructor (maxSize: int)
      requires maxSize > 0
      ensures this.maxSize == maxSize && Valid()
      ensures State() == MemoryModel.Init(maxSize)
    {
      this.maxSize := maxSize;
      allocatedList := [];
      freeList := [];
      freeList := freeList + [Block(0, maxSize)];
      new;
      assert State() == MemoryModel.Init(maxSize);
    }

    /**
     * Allocates `length` words first-fit and returns the base address of the
     * allocated block, or -1 when no free block is long enough.
     */
    method Malloc(length: int) returns (address: int)
      requires Valid() && length > 0
      modifies this
      ensures Valid()
      ensures MemoryModel.Allocation(address, State()) == MemoryModel.Malloc(old(State()), length)
    {
      if |freeList| == 0 {
        return -1;
      }
      ghost var before := State();
      MemoryModel.MallocPreservesPartition(before, length, maxSize);
      // The first block is tested on its own; the loop then walks the
      // successors of `cur` until one is long enough.
      var found := 0;
      if freeList[0].len < length {
        var cur := 0;
        while cur + 1 < |freeList| && freeList[cur + 1].len < length
          invariant cur < |freeList|
          invariant forall k :: 0 <= k <= cur ==> freeList[k].len < length
        {
          cur := cur + 1;
        }
        if cur + 1 == |freeList| {
          return -1;
        }
        found := cur + 1;
      }
      MemoryModel.FirstFitAt(freeList, length, found);
      address := Allocate(found, length);
    }

    /**
     * Allocates from free block `i`, the first one long enough: whole on an
     * exact fit, by splitting otherwise.
     */
    method Allocate(i: nat, length: int) returns (address: int)
      requires length > 0 && MemoryModel.FirstFit(freeList, length) == Some(i)
      modifies this
      ensures MemoryModel.Allocation(address, State()) == MemoryModel.Malloc(old(State()), length)
    {
      if freeList[i].len == length {
        address := TakeWhole(i);
      } else {
        address := SplitAt(i, length);
      }
    }

    /**
     * Exact fit: free block `i` is appended to the allocated list and then
     * removed, as a value, from the free list.
     */
    method TakeWhole(i: nat) returns (address: int)
      requires i < |freeList|
      requires forall j :: 0 <= j < i ==> freeList[j].len < freeList[i].len
      modifies this
      ensures address == old(freeList)[i].base
      ensures freeList == Remove(old(freeList), i)
      ensures allocatedList == old(allocatedList) + [old(freeList)[i]]
    {
      var b := freeList[i];
      address := b.base;
      allocatedList := allocatedList + [b];
      RemoveValueAt(freeList, b, i);
      freeList := RemoveValue(freeList, b);
    }

    /**
     * Split: the first `length` words of free block `i` are appended to the
     * allocated list; the rest is added at index `i` of the free list and the
     * old block, now at `i + 1`, is removed.
     */
    method SplitAt(i: nat, length: int) returns (address: int)
      requires i < |freeList| && 0 < length < freeList[i].len
      modifies this
      ensures address == old(freeList)[i].base
      ensures freeList == old(freeList)[i := Block(old(freeList)[i].base + length, old(freeList)[i].len - length)]
      ensures allocatedList == old(allocatedList) + [Block(old(freeList)[i].base, length)]
    {
      var b := freeList[i];
      address := b.base;
      allocatedList := allocatedList + [Block(b.base, length)];
      freeList := Insert(freeList, i, Block(b.base + length, b.len - length));
      freeList := Remove(freeList, i + 1);
      assert freeList == old(freeList)[i := Block(b.base + length, b.len - length)];
    }

    /**
     * Moves the first allocated block whose base is `address` to the end of the
     * free list; fails when nothing is allocated and does nothing when no
     * allocated block has that base.
     */
    method Free(address: int) returns (outcome: Outcome<MemoryModel.Error>)
      requires Valid()
      modifies this
      ensures Valid()
      ensures match MemoryModel.Free(old(State()), address)
        case Success(h) => outcome == Pass && State() == h
        case Failure(e) => outcome == Fail(e) && State() == old(State())
    {
      if allocatedList == [] {
        return Fail(MemoryModel.AllocatedListEmpty);
      }
      ghost var before := State();
      MemoryModel.FreePreservesPartition(before, address, maxSize);
      outcome := Pass;
      var cur := 0;
      if allocatedList[cur].base == address {
        var b := allocatedList[cur];
        freeList := freeList + [b];
        RemoveValueAt(allocatedList, b, cur);
        allocatedList := RemoveValue(allocatedList, b);
        return;
      }
      while cur + 1 < |allocatedList| && allocatedList[cur + 1].base != address
        invariant cur < |allocatedList|
        invariant forall k :: 0 <= k <= cur ==> allocatedList[k].base != address
      {
        cur := cur + 1;
      }
      if cur + 1 < |allocatedList| {
        freeList := freeList + [allocatedList[cur + 1]];
        allocatedList := Remove(allocatedList, cur + 1);
      }
    }

    /**
     * Merges free blocks: for each outer index, every later free block that
     * starts where the outer block ends is joined to it, and the inner scan
     * then starts again right after the outer index. Fails on an empty free list.
     */
    method Defrag() returns (outcome: Outcome<MemoryModel.Error>)
      requires Valid()
      modifies this
      ensures Valid()
      ensures match MemoryModel.Defrag(old(State()))
        case Success(h) => outcome == Pass && State() == h
        case Failure(e) => outcome == Fail(e) && State() == old(State())
    {
      if freeList == [] {
        return Fail(MemoryModel.FreeListEmpty);
      }
      ghost var before := State();
      MemoryModel.DefragPreservesPartition(before, maxSize);
      ghost var target := MemoryModel.Coalesce(freeList);
      var checkedIndex := 0;
      var runningIndex := 1;
      while checkedIndex + 1 < |freeList|
        invariant checkedIndex <= |freeList| && runningIndex == checkedIndex + 1
        invariant checkedIndex + 1 < |freeList| ==> MemoryModel.Outer(freeList, checkedIndex) == target
        invariant checkedIndex + 1 >= |freeList| ==> freeList == target
        invariant allocatedList == before.allocatedList
        decreases |freeList| - checkedIndex
      {
        ghost var start := freeList;
        while runningIndex < |freeList|
          invariant checkedIndex < runningIndex <= |freeList| <= |start|
          invariant MemoryModel.Inner(freeList, checkedIndex, runningIndex) == MemoryModel.Inner(start, checkedIndex, checkedIndex + 1)
          invariant allocatedList == before.allocatedList
          decreases |freeList|, |freeList| - runningIndex
        {
          var outer, inner := freeList[checkedIndex], freeList[runningIndex];
          if inner.base == outer.base + outer.len {
            JoinFree(checkedIndex, runningIndex);
            runningIndex := checkedIndex + 1;
          } else {
            runningIndex := runningIndex + 1;
          }
        }
        checkedIndex := checkedIndex + 1;
        runningIndex := checkedIndex + 1;
      }
      outcome := Pass;
    }

    /**
     * One merge of defrag: the joined block is added at index `c`, then the
     * block that was at `r` and the block that was at `c`, both moved up one
     * place, are removed.
     */
    method JoinFree(c: nat, r: nat)
      requires c < r < |freeList|
      modifies this`freeList
      ensures freeList == MemoryModel.Merge(old(freeList), c, r)
    {
      var outer, inner := freeList[c], freeList[r];
      MemoryModel.MergeByListOperations(freeList, c, r);
      freeList := Insert(freeList, c, Block(outer.base, outer.len + inner.len));
      freeList := Remove(freeList, r + 1);
      freeList := Remove(freeList, c + 1);
    }
  }

  /**
   * A client run: capacity 100, malloc(30), malloc(20), free(0), defrag,
   * malloc(30). The second 30 words come from the block at 50, which is
   * scanned before the freed block at 0.
   */
  method Scenario() {
    MemoryModel.ScenarioRun();
    var space := new MemorySpace(100);
    var a := space.Malloc(30);
    assert a == 0;
    var b := space.Malloc(20);
    assert b == 30;
    var r := space.Free(0);
    assert r == Pass;
    r := space.Defrag();
    assert r == Pass;
    var c := space.Malloc(30);
    assert c == 50;
    assert space.freeList == [Block(80, 20), Block(0, 30)];
    assert space.allocatedList == [Block(30, 20), Block(50, 30)];
  }
}
