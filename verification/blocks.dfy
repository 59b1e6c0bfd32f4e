/**
 * Address-range blocks and the ordered lists that hold them.
 *
 * A `Block` stands for a MemoryBlock (base address and length). A list of
 * blocks is a `seq<Block>`; `Insert`, `Remove` and `RemoveValue` are the list's
 * add(i, b), remove(i) and remove(block) operations, and addLast is `s + [b]`.
 */
module Blocks {

  /** The half-open address range [base, base + len). */
  datatype Block = Block(base: nat, len: nat) {
    /** The first address after the block. */
    function End(): nat { base + len }
  }

  /** The two ranges share no address. */
  predicate Apart(x: Block, y: Block) {
    x.End() <= y.base || y.End() <= x.base
  }

  /** No two blocks at different positions of the list overlap. */
  predicate Disjoint(s: seq<Block>) {
    forall i, j :: 0 <= i < j < |s| ==> Apart(s[i], s[j])
  }

  /** The total length of the blocks of a list. */
  function Sum(s: seq<Block>): (total: nat) {
    if s == [] then 0 else s[0].len + Sum(s[1..])
  }

  /** add(i, x): `x` becomes element `i`; the elements from `i` on move up one place. */
  function Insert(s: seq<Block>, i: nat, x: Block): (t: seq<Block>)
    requires i <= |s|
    ensures |t| == |s| + 1 && t[i] == x
    ensures forall k :: 0 <= k < i ==> t[k] == s[k]
    ensures forall k :: i < k < |t| ==> t[k] == s[k - 1]
  {
    s[..i] + [x] + s[i..]
  }

  /** remove(i): element `i` goes; the elements after it move down one place. */
  function Remove(s: seq<Block>, i: nat): (t: seq<Block>)
    requires i < |s|
    ensures |t| == |s| - 1
    ensures forall k :: 0 <= k < i ==> t[k] == s[k]
    ensures forall k :: i <= k < |t| ==> t[k] == s[k + 1]
  {
    s[..i] + s[i + 1..]
  }

  /** remove(block): the first element equal to `x` goes; a list without `x` is left as it is. */
  function RemoveValue(s: seq<Block>, x: Block): (t: seq<Block>)
    ensures x !in s ==> t == s
    ensures x in s ==> |t| == |s| - 1
  {
    if s == [] then []
    else if s[0] == x then s[1..]
    else [s[0]] + RemoveValue(s[1..], x)
  }

  /** Removing the first occurrence of a value is removing at the index where it first occurs. */
  lemma {:induction false} RemoveValueAt(s: seq<Block>, x: Block, k: nat)
    requires k < |s| && s[k] == x
    requires forall j :: 0 <= j < k ==> s[j] != x
    ensures RemoveValue(s, x) == Remove(s, k)
  {
    if k > 0 {
      assert s[0] != x;
      RemoveValueAt(s[1..], x, k - 1);
      assert [s[0]] + Remove(s[1..], k - 1) == Remove(s, k);
    }
  }

  lemma {:induction false} SumConcat(a: seq<Block>, b: seq<Block>)
    ensures Sum(a + b) == Sum(a) + Sum(b)
  {
    if a == [] {
      assert a + b == b;
    } else {
      assert (a + b)[1..] == a[1..] + b;
      SumConcat(a[1..], b);
    }
  }

  lemma SumSplit(s: seq<Block>, i: nat)
    requires i < |s|
    ensures Sum(s) == Sum(s[..i]) + s[i].len + Sum(s[i + 1..])
  {
    var tail := s[i..];
    assert s == s[..i] + tail;
    SumConcat(s[..i], tail);
    assert tail != [] && tail[0] == s[i] && tail[1..] == s[i + 1..];
  }

  /** Removing a block takes its length off the total. */
  lemma SumRemove(s: seq<Block>, i: nat)
    requires i < |s|
    ensures Sum(Remove(s, i)) + s[i].len == Sum(s)
  {
    SumSplit(s, i);
    SumConcat(s[..i], s[i + 1..]);
  }

  /** Inserting a block adds its length to the total. */
  lemma SumInsert(s: seq<Block>, i: nat, x: Block)
    requires i <= |s|
    ensures Sum(Insert(s, i, x)) == Sum(s) + x.len
  {
    var t := Insert(s, i, x);
    SumSplit(t, i);
    assert t[..i] == s[..i] && t[i + 1..] == s[i..];
    assert s == s[..i] + s[i..];
    SumConcat(s[..i], s[i..]);
  }

  /** Replacing a block changes the total by the difference of the lengths. */
  lemma SumUpdate(s: seq<Block>, i: nat, y: Block)
    requires i < |s|
    ensures Sum(s[i := y]) + s[i].len == Sum(s) + y.len
  {
    var t := s[i := y];
    SumSplit(s, i);
    SumSplit(t, i);
    assert t[..i] == s[..i] && t[i + 1..] == s[i + 1..];
  }

  /** Dropping a block keeps the others apart. */
  lemma DisjointRemove(s: seq<Block>, p: nat)
    requires p < |s| && Disjoint(s)
    ensures Disjoint(Remove(s, p))
  {
    var t := Remove(s, p);
    forall i, j | 0 <= i < j < |t| ensures Apart(t[i], t[j]) {
      var i', j' := if i < p then i else i + 1, if j < p then j else j + 1;
      assert t[i] == s[i'] && t[j] == s[j'] && i' < j';
    }
  }

  /** A block apart from every block of a list can be inserted anywhere in it. */
  lemma DisjointInsert(s: seq<Block>, q: nat, x: Block)
    requires q <= |s| && Disjoint(s)
    requires forall k :: 0 <= k < |s| ==> Apart(x, s[k])
    ensures Disjoint(Insert(s, q, x))
  {
    var t := Insert(s, q, x);
    forall i, j | 0 <= i < j < |t| ensures Apart(t[i], t[j]) {
      if i == q {
        assert Apart(x, s[j - 1]);
      } else if j == q {
        assert Apart(x, s[i]);
      } else {
        var i', j' := if i < q then i else i - 1, if j < q then j else j - 1;
        assert t[i] == s[i'] && t[j] == s[j'] && i' < j';
      }
    }
  }

  /** A block can be replaced by one that is apart from every other block of the list. */
  lemma DisjointReplace(s: seq<Block>, i: nat, y: Block)
    requires i < |s| && Disjoint(s)
    requires forall k :: 0 <= k < |s| && k != i ==> Apart(y, s[k])
    ensures Disjoint(s[i := y])
  {
    var t := s[i := y];
    forall a, b | 0 <= a < b < |t| ensures Apart(t[a], t[b]) {
      if a == i {
        assert Apart(y, s[b]);
      } else if b == i {
        assert Apart(y, s[a]);
      } else {
        assert Apart(s[a], s[b]);
      }
    }
  }

  /**
   * A block `z` of positive length that is apart from `x` and from `y`, where
   * `y` starts where `x` ends, is apart from the block covering both.
   */
  lemma ApartFromJoined(x: Block, y: Block, z: Block)
    requires y.base == x.End() && 1 <= z.len
    requires Apart(x, z) && Apart(y, z)
    ensures Apart(Block(x.base, x.len + y.len), z)
  {
  }
}
