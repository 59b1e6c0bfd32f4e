/**
 * The memory space as a value: its free list and its allocated list, the
 * invariant that the two lists partition [0, maxSize), and what malloc, free
 * and defrag do to the two lists.
 */
module MemoryModel {
  import opened Wrappers
  import opened Blocks

  /** The two lists of a memory space, in list order. */
  datatype Space = Space(freeList: seq<Block>, allocatedList: seq<Block>) {
    /** Every block of the space: the free list followed by the allocated list. */
    function All(): seq<Block> { freeList + allocatedList }
  }

  /** Both error paths raise IllegalArgumentException("List is empty"). */
  datatype Error = AllocatedListEmpty | FreeListEmpty

  /** Every block is non-empty and lies inside [0, size). */
  predicate InRange(s: seq<Block>, size: nat) {
    forall k :: 0 <= k < |s| ==> 1 <= s[k].len && s[k].End() <= size
  }

  /**
   * The blocks partition [0, size): none is empty, none reaches past `size`,
   * no two overlap and their lengths add up to `size`.
   */
  predicate WellFormed(s: seq<Block>, size: nat) {
    InRange(s, size) && Disjoint(s) && Sum(s) == size
  }

  /** The blocks of both lists together partition [0, size). */
  predicate Partitioned(h: Space, size: nat) {
    WellFormed(h.All(), size)
  }

  /** Moving one block to another place in the list keeps it a partition. */
  lemma MoveKeepsWellFormed(s: seq<Block>, p: nat, q: nat, size: nat)
    requires p < |s| && q < |s| && WellFormed(s, size)
    ensures WellFormed(Insert(Remove(s, p), q, s[p]), size)
  {
    var rest := Remove(s, p);
    DisjointRemove(s, p);
    forall k | 0 <= k < |rest| ensures Apart(s[p], rest[k]) {
      if k < p {
        assert Apart(s[k], s[p]);
      } else {
        assert Apart(s[p], s[k + 1]);
      }
    }
    DisjointInsert(rest, q, s[p]);
    SumRemove(s, p);
    SumInsert(rest, q, s[p]);
  }

  /**
   * Splitting block `i` into its first `n` words, appended at the end, and the
   * rest, left at place `i`, keeps the list a partition.
   */
  lemma SplitKeepsWellFormed(s: seq<Block>, i: nat, n: nat, size: nat)
    requires i < |s| && 0 < n < s[i].len && WellFormed(s, size)
    ensures WellFormed(s[i := Block(s[i].base + n, s[i].len - n)] + [Block(s[i].base, n)], size)
  {
    var lo, hi := Block(s[i].base, n), Block(s[i].base + n, s[i].len - n);
    var upd := s[i := hi];
    forall k | 0 <= k < |s| && k != i ensures Apart(hi, s[k]) {
      assert if k < i then Apart(s[k], s[i]) else Apart(s[i], s[k]);
    }
    DisjointReplace(s, i, hi);
    forall k | 0 <= k < |upd| ensures Apart(lo, upd[k]) {
      if k != i {
        assert if k < i then Apart(s[k], s[i]) else Apart(s[i], s[k]);
      }
    }
    DisjointInsert(upd, |upd|, lo);
    assert Insert(upd, |upd|, lo) == upd + [lo];
    SumUpdate(s, i, hi);
    SumInsert(upd, |upd|, lo);
  }

  /**
   * Joining block `c` with a later block `r` that starts where it ends, at
   * place `c`, keeps the list a partition.
   */
  lemma JoinKeepsWellFormed(s: seq<Block>, c: nat, r: nat, size: nat)
    requires c < r < |s| && s[r].base == s[c].End() && WellFormed(s, size)
    ensures WellFormed(Remove(s, r)[c := Block(s[c].base, s[c].len + s[r].len)], size)
  {
    var m := Block(s[c].base, s[c].len + s[r].len);
    var rest := Remove(s, r);
    DisjointRemove(s, r);
    forall k | 0 <= k < |rest| && k != c ensures Apart(m, rest[k]) {
      var k' := if k < r then k else k + 1;
      assert rest[k] == s[k'] && k' != c && k' != r;
      assert if k' < c then Apart(s[k'], s[c]) else Apart(s[c], s[k']);
      assert if k' < r then Apart(s[k'], s[r]) else Apart(s[r], s[k']);
      ApartFromJoined(s[c], s[r], s[k']);
    }
    DisjointReplace(rest, c, m);
    SumRemove(s, r);
    SumUpdate(rest, c, m);
  }

  /**
   * A new memory space: one free block covering everything, nothing allocated.
   * For a positive size it is a partition of the space.
   */
  function Init(maxSize: nat): (h: Space)
    ensures maxSize > 0 ==> Partitioned(h, maxSize)
  {
    assert Space([Block(0, maxSize)], []).All() == [Block(0, maxSize)];
    Space([Block(0, maxSize)], [])
  }

  // ---------------------------------------------------------------- malloc

  /** The index of the first block, in list order, whose length is at least `n`. */
  function FirstFit(s: seq<Block>, n: int): (r: Option<nat>)
    ensures r.Some? ==> r.value < |s| && s[r.value].len >= n
    ensures r.Some? ==> forall j :: 0 <= j < r.value ==> s[j].len < n
    ensures r.None? <==> forall j :: 0 <= j < |s| ==> s[j].len < n
  {
    if s == [] then None
    else if s[0].len >= n then Some(0)
    else match FirstFit(s[1..], n)
      case None => None
      case Some(i) => Some(i + 1)
  }

  /** Block `i` is the first block of the list whose length is at least `n`. */
  lemma FirstFitAt(s: seq<Block>, n: int, i: nat)
    requires i < |s| && s[i].len >= n
    requires forall j :: 0 <= j < i ==> s[j].len < n
    ensures FirstFit(s, n) == Some(i)
  {
  }

  /** What malloc returns and the lists it leaves behind. */
  datatype Allocation = Allocation(address: int, space: Space)

  /**
   * malloc(n): the returned base address (or -1) and the new lists. The first
   * free block that is long enough is either moved whole to the end of the
   * allocated list (exact fit) or split: its first `n` words are appended to
   * the allocated list and the rest stays at its place in the free list.
   * It fails, and changes nothing, exactly when no free block is long enough;
   * otherwise the allocated list gains one block at its end, of length `n`
   * and at the returned address.
   */
  function Malloc(h: Space, n: int): (a: Allocation)
    requires n > 0
    ensures a.address == -1 <==> forall k :: 0 <= k < |h.freeList| ==> h.freeList[k].len < n
    ensures a.address == -1 ==> a.space == h
    ensures a.address != -1 ==> a.address >= 0 && a.space.allocatedList == h.allocatedList + [Block(a.address, n)]
  {
    match FirstFit(h.freeList, n)
    case None => Allocation(-1, h)
    case Some(i) =>
      var b := h.freeList[i];
      if b.len == n then
        Allocation(b.base, Space(Remove(h.freeList, i), h.allocatedList + [b]))
      else
        Allocation(b.base, Space(h.freeList[i := Block(b.base + n, b.len - n)], h.allocatedList + [Block(b.base, n)]))
  }

  /**
   * When block `i` is the first free block long enough, malloc returns its base;
   * on an exact fit the block leaves the free list and is appended unchanged to
   * the allocated list, otherwise it is split in place.
   */
  lemma MallocFirstFit(h: Space, n: int, i: nat)
    requires n > 0 && i < |h.freeList| && h.freeList[i].len >= n
    requires forall j :: 0 <= j < i ==> h.freeList[j].len < n
    ensures Malloc(h, n).address == h.freeList[i].base
    ensures h.freeList[i].len == n ==>
      && Malloc(h, n).space.freeList == Remove(h.freeList, i)
      && Malloc(h, n).space.allocatedList == h.allocatedList + [h.freeList[i]]
      && |Malloc(h, n).space.freeList| == |h.freeList| - 1
    ensures h.freeList[i].len > n ==>
      && Malloc(h, n).space.allocatedList == h.allocatedList + [Block(h.freeList[i].base, n)]
      && |Malloc(h, n).space.freeList| == |h.freeList|
      && Malloc(h, n).space.freeList[i] == Block(h.freeList[i].base + n, h.freeList[i].len - n)
      && forall k :: 0 <= k < |h.freeList| && k != i ==> Malloc(h, n).space.freeList[k] == h.freeList[k]
  {
    FirstFitAt(h.freeList, n, i);
  }

  /** The example of the malloc documentation: request 17 from the free block (250, 20). */
  lemma MallocSplitExample()
    ensures Malloc(Space([Block(250, 20)], []), 17) == Allocation(250, Space([Block(267, 3)], [Block(250, 17)]))
  {
    assert FirstFit([Block(250, 20)], 17) == Some(0);
  }

  /** Moving free block `i` whole to the end of the allocated list keeps the partition. */
  lemma ExactFitKeepsPartition(h: Space, i: nat, size: nat)
    requires i < |h.freeList| && Partitioned(h, size)
    ensures Partitioned(Space(Remove(h.freeList, i), h.allocatedList + [h.freeList[i]]), size)
  {
    var all := h.All();
    assert all[i] == h.freeList[i];
    MoveKeepsWellFormed(all, i, |all| - 1, size);
    assert Space(Remove(h.freeList, i), h.allocatedList + [h.freeList[i]]).All()
        == Insert(Remove(all, i), |all| - 1, all[i]);
  }

  /**
   * Splitting free block `i`, its first `n` words appended to the allocated
   * list and the rest left in place, keeps the partition.
   */
  lemma SplitKeepsPartition(h: Space, i: nat, n: nat, size: nat)
    requires i < |h.freeList| && 0 < n < h.freeList[i].len && Partitioned(h, size)
    ensures var b := h.freeList[i];
      Partitioned(Space(h.freeList[i := Block(b.base + n, b.len - n)], h.allocatedList + [Block(b.base, n)]), size)
  {
    var all := h.All();
    var b := h.freeList[i];
    assert all[i] == b;
    SplitKeepsWellFormed(all, i, n, size);
    assert Space(h.freeList[i := Block(b.base + n, b.len - n)], h.allocatedList + [Block(b.base, n)]).All()
        == all[i := Block(b.base + n, b.len - n)] + [Block(b.base, n)];
  }

  /** malloc keeps the two lists a partition of the memory space. */
  lemma MallocPreservesPartition(h: Space, n: int, size: nat)
    requires n > 0 && Partitioned(h, size)
    ensures Partitioned(Malloc(h, n).space, size)
  {
    var fit := FirstFit(h.freeList, n);
    if fit.Some? {
      if h.freeList[fit.value].len == n {
        ExactFitKeepsPartition(h, fit.value, size);
      } else {
        SplitKeepsPartition(h, fit.value, n, size);
      }
    }
  }

  // ------------------------------------------------------------------ free

  /** The index of the first block, in list order, whose base address is `address`. */
  function FindBase(s: seq<Block>, address: int): (r: Option<nat>)
    ensures r.Some? ==> r.value < |s| && s[r.value].base == address
    ensures r.Some? ==> forall j :: 0 <= j < r.value ==> s[j].base != address
    ensures r.None? <==> forall j :: 0 <= j < |s| ==> s[j].base != address
  {
    if s == [] then None
    else if s[0].base == address then Some(0)
    else match FindBase(s[1..], address)
      case None => None
      case Some(i) => Some(i + 1)
  }

  /**
   * free(address): an error when nothing is allocated; otherwise the first
   * allocated block whose base is `address` moves unchanged to the end of the
   * free list, and when there is none nothing changes. No block is lost or
   * made up.
   */
  function Free(h: Space, address: int): (r: Result<Space, Error>)
    ensures r.Failure? <==> h.allocatedList == []
    ensures r.Failure? ==> r.error == AllocatedListEmpty
    ensures r.Success? ==> |r.value.freeList| + |r.value.allocatedList| == |h.freeList| + |h.allocatedList|
    ensures r.Success? ==>
      (r.value == h <==> forall j :: 0 <= j < |h.allocatedList| ==> h.allocatedList[j].base != address)
    ensures r.Success? && r.value != h ==>
      && |r.value.freeList| == |h.freeList| + 1
      && r.value.freeList[..|h.freeList|] == h.freeList
      && r.value.freeList[|h.freeList|] in h.allocatedList
      && r.value.freeList[|h.freeList|].base == address
  {
    if h.allocatedList == [] then Failure(AllocatedListEmpty)
    else match FindBase(h.allocatedList, address)
      case None => Success(h)
      case Some(j) => Success(Space(h.freeList + [h.allocatedList[j]], Remove(h.allocatedList, j)))
  }

  /** free keeps the two lists a partition of the memory space. */
  lemma FreePreservesPartition(h: Space, address: int, size: nat)
    requires Partitioned(h, size) && Free(h, address).Success?
    ensures Partitioned(Free(h, address).value, size)
  {
    match FindBase(h.allocatedList, address)
    case None =>
    case Some(j) =>
      var moved := Space(h.freeList + [h.allocatedList[j]], Remove(h.allocatedList, j));
      AllocatedToFreeKeepsPartition(h, j, size);
      assert Free(h, address).value == moved;
  }

  /** Moving allocated block `j` to the end of the free list keeps the partition. */
  lemma AllocatedToFreeKeepsPartition(h: Space, j: nat, size: nat)
    requires j < |h.allocatedList| && Partitioned(h, size)
    ensures Partitioned(Space(h.freeList + [h.allocatedList[j]], Remove(h.allocatedList, j)), size)
  {
    var all := h.All();
    var p := |h.freeList| + j;
    assert all[p] == h.allocatedList[j];
    assert Space(h.freeList + [h.allocatedList[j]], Remove(h.allocatedList, j)).All()
        == Insert(Remove(all, p), |h.freeList|, all[p]);
    MoveKeepsWellFormed(all, p, |h.freeList|, size);
  }

  /**
   * When allocated block `j` is the first with base `address`, free moves that
   * block, unchanged, to the end of the free list and removes it at `j` from the
   * allocated list; every other allocated block keeps its order.
   */
  lemma FreeFirstMatch(h: Space, address: int, j: nat)
    requires j < |h.allocatedList| && h.allocatedList[j].base == address
    requires forall k :: 0 <= k < j ==> h.allocatedList[k].base != address
    ensures Free(h, address) == Success(Space(h.freeList + [h.allocatedList[j]], Remove(h.allocatedList, j)))
  {
    assert FindBase(h.allocatedList, address) == Some(j);
  }

  /**
   * Freeing the address that a successful malloc returned gives back the block
   * malloc appended: it goes to the end of the free list unchanged and the
   * allocated list is what it was before the malloc.
   */
  lemma MallocThenFree(h: Space, n: int, size: nat)
    requires n > 0 && Partitioned(h, size)
    requires Malloc(h, n).address != -1
    ensures var a := Malloc(h, n);
      && |a.space.allocatedList| == |h.allocatedList| + 1
      && a.space.allocatedList[|h.allocatedList|].base == a.address
      && Free(a.space, a.address)
         == Success(Space(a.space.freeList + [a.space.allocatedList[|h.allocatedList|]], h.allocatedList))
  {
    var i := FirstFit(h.freeList, n).value;
    var a := Malloc(h, n);
    var all := h.All();
    var m := |h.allocatedList|;
    assert all[i] == h.freeList[i];
    forall k | 0 <= k < m ensures h.allocatedList[k].base != a.address {
      assert all[|h.freeList| + k] == h.allocatedList[k];
      assert Apart(all[i], all[|h.freeList| + k]);
    }
    forall k | 0 <= k < m ensures a.space.allocatedList[k].base != a.address {
      assert a.space.allocatedList[k] == h.allocatedList[k];
    }
    assert |a.space.allocatedList| == m + 1 && a.space.allocatedList[m].base == a.address;
    var found := FindBase(a.space.allocatedList, a.address);
    assert found.Some? && found.value == m;
    assert Remove(a.space.allocatedList, m) == h.allocatedList;
  }

  // ---------------------------------------------------------------- defrag

  /**
   * One merge of defrag: the outer block `c` and a later block `r` that starts
   * where `c` ends become a single block at place `c`, with `c`'s base and both
   * lengths; every other block keeps its order.
   */
  function Merge(s: seq<Block>, c: nat, r: nat): (t: seq<Block>)
    requires c < r < |s|
    ensures |t| == |s| - 1
    ensures t[..c] == s[..c]
    ensures t[c] == Block(s[c].base, s[c].len + s[r].len)
    ensures forall k :: 0 <= k < |t| && k != c ==> t[k] == s[if k < r then k else k + 1]
  {
    Remove(s, r)[c := Block(s[c].base, s[c].len + s[r].len)]
  }

  /** A merge keeps the total length of the list. */
  lemma MergeSum(s: seq<Block>, c: nat, r: nat)
    requires c < r < |s|
    ensures Sum(Merge(s, c, r)) == Sum(s)
  {
    SumRemove(s, r);
    SumUpdate(Remove(s, r), c, Block(s[c].base, s[c].len + s[r].len));
  }

  /**
   * The list operations defrag performs for one merge (add the joined block at
   * the outer index, then remove the inner block and the old outer block, which
   * have both moved up one place) amount to `Merge`.
   */
  lemma MergeByListOperations(s: seq<Block>, c: nat, r: nat)
    requires c < r < |s|
    ensures Remove(Remove(Insert(s, c, Block(s[c].base, s[c].len + s[r].len)), r + 1), c + 1) == Merge(s, c, r)
  {
    var a := Insert(s, c, Block(s[c].base, s[c].len + s[r].len));
    var b := Remove(a, r + 1);
    var t := Remove(b, c + 1);
    var u := Merge(s, c, r);
    assert |t| == |u|;
    forall k | 0 <= k < |t| ensures t[k] == u[k] {
      if k < c {
      } else if k == c {
      } else if k < r {
        assert t[k] == b[k + 1] == a[k + 1] == s[k];
      } else {
        assert t[k] == b[k + 1] == a[k + 2] == s[k + 1];
      }
    }
  }

  /**
   * The inner scan of defrag at outer index `c`, from inner index `r` on: when
   * block `r` starts where block `c` ends the two are merged at `c` and the scan
   * starts again right after `c`; otherwise it moves on to the next block.
   * The scan never adds a block, leaves the blocks before `c` alone and keeps
   * the base of block `c`.
   */
  function Inner(s: seq<Block>, c: nat, r: nat): (t: seq<Block>)
    requires c < r <= |s|
    ensures c < |t| <= |s|
    ensures t[..c] == s[..c] && t[c].base == s[c].base
    decreases |s|, |s| - r
  {
    if r == |s| then s
    else if s[r].base == s[c].End() then Inner(Merge(s, c, r), c, c + 1)
    else Inner(s, c, r + 1)
  }

  /**
   * The outer scan of defrag from outer index `c` on: the inner scan runs for
   * `c`, then the outer index moves on as long as a block follows it. Like
   * the inner scan, it never adds a block, leaves the blocks before `c` alone
   * and keeps the base of block `c`.
   */
  function Outer(s: seq<Block>, c: nat): (t: seq<Block>)
    requires c < |s|
    ensures c < |t| <= |s|
    ensures t[..c] == s[..c] && t[c].base == s[c].base
    decreases |s| - c
  {
    var t := Inner(s, c, c + 1);
    if c + 2 < |t| then
      var u := Outer(t, c + 1);
      assert u[..c] == u[..c + 1][..c] && t[..c] == t[..c + 1][..c];
      assert u[c] == u[..c + 1][c] && t[c] == t[..c + 1][c];
      u
    else t
  }

  /** The free list after defrag: at least one block, no more than before, the first one starting where it did. */
  function Coalesce(s: seq<Block>): (t: seq<Block>)
    requires s != []
    ensures 1 <= |t| <= |s| && t[0].base == s[0].base
  {
    Outer(s, 0)
  }

  /**
   * defrag: an error on an empty free list; otherwise the free list is
   * coalesced and the allocated list is left alone.
   */
  function Defrag(h: Space): (r: Result<Space, Error>)
    ensures r.Failure? <==> h.freeList == []
    ensures r.Failure? ==> r.error == FreeListEmpty
    ensures r.Success? ==> r.value.allocatedList == h.allocatedList
    ensures r.Success? ==> 1 <= |r.value.freeList| <= |h.freeList|
  {
    if h.freeList == [] then Failure(FreeListEmpty)
    else Success(Space(Coalesce(h.freeList), h.allocatedList))
  }

  lemma {:induction false} InnerSum(s: seq<Block>, c: nat, r: nat)
    requires c < r <= |s|
    ensures Sum(Inner(s, c, r)) == Sum(s)
    decreases |s|, |s| - r
  {
    if r < |s| {
      if s[r].base == s[c].End() {
        MergeSum(s, c, r);
        InnerSum(Merge(s, c, r), c, c + 1);
      } else {
        InnerSum(s, c, r + 1);
      }
    }
  }

  lemma {:induction false} OuterSum(s: seq<Block>, c: nat)
    requires c < |s|
    ensures Sum(Outer(s, c)) == Sum(s)
    decreases |s| - c
  {
    var t := Inner(s, c, c + 1);
    InnerSum(s, c, c + 1);
    if c + 2 < |t| {
      OuterSum(t, c + 1);
    }
  }

  /** defrag keeps the number of free words. */
  lemma CoalesceSum(s: seq<Block>)
    requires s != []
    ensures Sum(Coalesce(s)) == Sum(s)
  {
    OuterSum(s, 0);
  }

  /** A merge keeps the two lists a partition of the memory space. */
  lemma MergePreservesPartition(freeList: seq<Block>, allocatedList: seq<Block>, c: nat, r: nat, size: nat)
    requires c < r < |freeList| && freeList[r].base == freeList[c].End()
    requires Partitioned(Space(freeList, allocatedList), size)
    ensures Partitioned(Space(Merge(freeList, c, r), allocatedList), size)
  {
    var all := freeList + allocatedList;
    assert all[c] == freeList[c] && all[r] == freeList[r];
    assert Space(Merge(freeList, c, r), allocatedList).All()
        == Remove(all, r)[c := Block(all[c].base, all[c].len + all[r].len)];
    JoinKeepsWellFormed(all, c, r, size);
  }

  lemma {:induction false} InnerPreservesPartition(freeList: seq<Block>, allocatedList: seq<Block>, c: nat, r: nat, size: nat)
    requires c < r <= |freeList|
    requires Partitioned(Space(freeList, allocatedList), size)
    ensures Partitioned(Space(Inner(freeList, c, r), allocatedList), size)
    decreases |freeList|, |freeList| - r
  {
    if r < |freeList| {
      if freeList[r].base == freeList[c].End() {
        MergePreservesPartition(freeList, allocatedList, c, r, size);
        InnerPreservesPartition(Merge(freeList, c, r), allocatedList, c, c + 1, size);
      } else {
        InnerPreservesPartition(freeList, allocatedList, c, r + 1, size);
      }
    }
  }

  lemma {:induction false} OuterPreservesPartition(freeList: seq<Block>, allocatedList: seq<Block>, c: nat, size: nat)
    requires c < |freeList|
    requires Partitioned(Space(freeList, allocatedList), size)
    ensures Partitioned(Space(Outer(freeList, c), allocatedList), size)
    decreases |freeList| - c
  {
    var t := Inner(freeList, c, c + 1);
    InnerPreservesPartition(freeList, allocatedList, c, c + 1, size);
    if c + 2 < |t| {
      OuterPreservesPartition(t, allocatedList, c + 1, size);
    }
  }

  /** defrag keeps the two lists a partition of the memory space. */
  lemma DefragPreservesPartition(h: Space, size: nat)
    requires Partitioned(h, size) && Defrag(h).Success?
    ensures Partitioned(Defrag(h).value, size)
  {
    OuterPreservesPartition(h.freeList, h.allocatedList, 0, size);
  }

  /** No block of the list starts where an EARLIER block of the list ends. */
  predicate NoForwardAdjacency(s: seq<Block>) {
    forall i, j :: 0 <= i < j < |s| ==> s[j].base != s[i].End()
  }

  /** No block starts where one of the blocks before index `c` ends, if it comes after that block. */
  predicate OuterDone(s: seq<Block>, c: nat) {
    forall i, j :: 0 <= i < c && i < j < |s| ==> s[j].base != s[i].End()
  }

  /** No block strictly between indices `c` and `r` starts where block `c` ends. */
  predicate InnerDone(s: seq<Block>, c: nat, r: nat)
    requires c < |s|
  {
    forall j :: c < j < r && j < |s| ==> s[j].base != s[c].End()
  }

  /**
   * After the inner scan at `c`, no later block starts where block `c` ends,
   * and what held of the blocks before `c` still holds.
   */
  lemma {:induction false} InnerCompletes(s: seq<Block>, c: nat, r: nat)
    requires c < r <= |s| && OuterDone(s, c) && InnerDone(s, c, r)
    ensures OuterDone(Inner(s, c, r), c + 1)
    decreases |s|, |s| - r
  {
    if r < |s| {
      if s[r].base == s[c].End() {
        var t := Merge(s, c, r);
        forall i, j | 0 <= i < c && i < j < |t| ensures t[j].base != t[i].End() {
          assert t[i] == s[i];
          if j == c {
            assert t[j].base == s[c].base;
          } else {
            assert t[j] == s[if j < r then j else j + 1];
          }
        }
        InnerCompletes(t, c, c + 1);
      } else {
        InnerCompletes(s, c, r + 1);
      }
    }
  }

  lemma {:induction false} OuterCompletes(s: seq<Block>, c: nat)
    requires c < |s| && OuterDone(s, c)
    ensures NoForwardAdjacency(Outer(s, c))
    decreases |s| - c
  {
    var t := Inner(s, c, c + 1);
    InnerCompletes(s, c, c + 1);
    if c + 2 < |t| {
      OuterCompletes(t, c + 1);
    }
  }

  /**
   * After defrag no free block starts where an earlier free block (in list
   * order) ends: every forward merge the scan can see has been made.
   */
  lemma CoalesceNoForwardAdjacency(s: seq<Block>)
    requires s != []
    ensures NoForwardAdjacency(Coalesce(s))
  {
    OuterCompletes(s, 0);
  }

  /** Three free blocks of which the first two touch: the first two are merged. */
  lemma CoalesceExample()
    ensures Coalesce([Block(0, 10), Block(10, 5), Block(20, 5)]) == [Block(0, 15), Block(20, 5)]
  {
    var s := [Block(0, 10), Block(10, 5), Block(20, 5)];
    var t := [Block(0, 15), Block(20, 5)];
    assert Merge(s, 0, 1) == t;
    assert Inner(s, 0, 1) == Inner(t, 0, 1) == Inner(t, 0, 2) == t;
  }

  /**
   * Only forward adjacency in list order is merged: when the right neighbour
   * comes first in the list, the two blocks stay apart.
   */
  lemma CoalesceMissesBackwardAdjacency()
    ensures Coalesce([Block(10, 5), Block(0, 10)]) == [Block(10, 5), Block(0, 10)]
  {
    var s := [Block(10, 5), Block(0, 10)];
    assert Inner(s, 0, 1) == Inner(s, 0, 2) == s;
  }

  /**
   * A run on a space of 100 words: malloc(30), malloc(20), free(0), defrag,
   * malloc(30). defrag, as the index scan, finds nothing to merge, and the last malloc takes the
   * block at 50, which comes before the freed block at 0 in the free list.
   */
  lemma ScenarioRun()
    ensures Malloc(Init(100), 30) == Allocation(0, Space([Block(30, 70)], [Block(0, 30)]))
    ensures Malloc(Space([Block(30, 70)], [Block(0, 30)]), 20)
         == Allocation(30, Space([Block(50, 50)], [Block(0, 30), Block(30, 20)]))
    ensures Free(Space([Block(50, 50)], [Block(0, 30), Block(30, 20)]), 0)
         == Success(Space([Block(50, 50), Block(0, 30)], [Block(30, 20)]))
    ensures Defrag(Space([Block(50, 50), Block(0, 30)], [Block(30, 20)]))
         == Success(Space([Block(50, 50), Block(0, 30)], [Block(30, 20)]))
    ensures Malloc(Space([Block(50, 50), Block(0, 30)], [Block(30, 20)]), 30)
         == Allocation(50, Space([Block(80, 20), Block(0, 30)], [Block(30, 20), Block(50, 30)]))
  {
    ScenarioMallocs();
    ScenarioFree();
    ScenarioDefrag();
    ScenarioLastMalloc();
  }

  lemma ScenarioMallocs()
    ensures Malloc(Init(100), 30) == Allocation(0, Space([Block(30, 70)], [Block(0, 30)]))
    ensures Malloc(Space([Block(30, 70)], [Block(0, 30)]), 20)
         == Allocation(30, Space([Block(50, 50)], [Block(0, 30), Block(30, 20)]))
  {
    FirstFitAt([Block(0, 100)], 30, 0);
    FirstFitAt([Block(30, 70)], 20, 0);
  }

  lemma ScenarioFree()
    ensures Free(Space([Block(50, 50)], [Block(0, 30), Block(30, 20)]), 0)
         == Success(Space([Block(50, 50), Block(0, 30)], [Block(30, 20)]))
  {
    var used := [Block(0, 30), Block(30, 20)];
    assert FindBase(used, 0) == Some(0);
    assert Remove(used, 0) == [Block(30, 20)];
    assert [Block(50, 50)] + [used[0]] == [Block(50, 50), Block(0, 30)];
  }

  lemma ScenarioDefrag()
    ensures Defrag(Space([Block(50, 50), Block(0, 30)], [Block(30, 20)]))
         == Success(Space([Block(50, 50), Block(0, 30)], [Block(30, 20)]))
  {
    var s := [Block(50, 50), Block(0, 30)];
    assert Inner(s, 0, 1) == Inner(s, 0, 2) == s;
    assert Coalesce(s) == s;
  }

  lemma ScenarioLastMalloc()
    ensures Malloc(Space([Block(50, 50), Block(0, 30)], [Block(30, 20)]), 30)
         == Allocation(50, Space([Block(80, 20), Block(0, 30)], [Block(30, 20), Block(50, 30)]))
  {
    var s := [Block(50, 50), Block(0, 30)];
    FirstFitAt(s, 30, 0);
    assert s[0 := Block(80, 20)] == [Block(80, 20), Block(0, 30)];
  }
}
