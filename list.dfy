/**
 * The singly linked list of block addresses (myalloc/list.c), one per
 * registry.  A list is the sequence of the addresses its nodes hold, head
 * first; a node is named by its position.  A `struct nodeStruct **headRef`
 * that points at the head of the list or at the `next` field of some node is
 * the position `at` where the sub-list it designates begins.
 */
module List {
  import opened Wrappers
  import opened HeaderCodec

  // ---------------------------------------------------------------------
  // Sequence vocabulary
  // ---------------------------------------------------------------------

  /** The position of the first node holding `x`. */
  function IndexOf(s: seq<int>, x: int): (r: Option<nat>)
    ensures r.None? <==> x !in s
    ensures r.Some? ==> r.value < |s| && s[r.value] == x
    ensures r.Some? ==> forall k :: 0 <= k < r.value ==> s[k] != x
  {
    IndexFrom(s, x, 0)
  }

  /** The position of the first node holding `x` at or after `from`. */
  function IndexFrom(s: seq<int>, x: int, from: nat): (r: Option<nat>)
    requires from <= |s|
    ensures r.None? <==> forall k :: from <= k < |s| ==> s[k] != x
    ensures r.Some? ==> from <= r.value < |s| && s[r.value] == x
    ensures r.Some? ==> forall k :: from <= k < r.value ==> s[k] != x
    decreases |s| - from
  {
    if from == |s| then None
    else if s[from] == x then Some(from)
    else IndexFrom(s, x, from + 1)
  }

  /** The list after List_insertHead of a node holding `x`. */
  function InsertedAtHead(s: seq<int>, x: int): (r: seq<int>)
    ensures x in r && |r| <= |s| + 1
  {
    if x in s then s else [x] + s
  }

  /** Inserting at the head adds `x` once, unless it is already there, and keeps every other node. */
  lemma InsertedAtHeadMultiset(s: seq<int>, x: int)
    ensures multiset(InsertedAtHead(s, x)) == multiset(s) + (if x in s then multiset{} else multiset{x})
  {
  }

  /** The list without its node at position `i`. */
  function Remove(s: seq<int>, i: nat): (r: seq<int>)
    requires i < |s|
    ensures |r| == |s| - 1
    ensures forall k :: 0 <= k < i ==> r[k] == s[k]
    ensures forall k :: i <= k < |r| ==> r[k] == s[k + 1]
  {
    s[..i] + s[i + 1..]
  }

  ghost predicate Distinct(s: seq<int>) {
    forall i, j :: 0 <= i < j < |s| ==> s[i] != s[j]
  }

  ghost predicate Sorted(s: seq<int>) {
    forall i, j :: 0 <= i < j < |s| ==> s[i] <= s[j]
  }

  /** `x` is no larger than any address of `s`. */
  ghost predicate LowerBound(x: int, s: seq<int>) {
    forall k :: 0 <= k < |s| ==> x <= s[k]
  }

  /** Position `k` holds the first minimum of the sub-list starting at `from`. */
  ghost predicate IsFirstMin(s: seq<int>, from: nat, k: nat) {
    from <= k < |s| &&
    (forall j :: from <= j < |s| ==> s[k] <= s[j]) &&
    (forall j :: from <= j < k ==> s[k] < s[j])
  }

  /** Position of the first minimum of `s[from..]`, as List_minNodePrev's scan finds it. */
  function FirstMinIndex(s: seq<int>, from: nat): (k: nat)
    requires from < |s|
    ensures IsFirstMin(s, from, k)
    decreases |s| - from
  {
    if from == |s| - 1 then from
    else
      var k := FirstMinIndex(s, from + 1);
      if s[k] < s[from] then k else from
  }

  /** A sub-list has one first minimum. */
  lemma FirstMinUnique(s: seq<int>, from: nat, k1: nat, k2: nat)
    requires IsFirstMin(s, from, k1) && IsFirstMin(s, from, k2)
    ensures k1 == k2
  {
    var m1, m2 := s[k1], s[k2];
    assert k1 < k2 ==> m2 < m1;
    assert k2 < k1 ==> m1 < m2;
  }

  lemma RemoveMembers(s: seq<int>, i: nat, x: int)
    requires i < |s| && Distinct(s)
    ensures x in Remove(s, i) <==> x in s && x != s[i]
  {
    var r := Remove(s, i);
    if x in r {
      var k :| 0 <= k < |r| && r[k] == x;
      assert k < i ==> r[k] == s[k];
      assert k >= i ==> r[k] == s[k + 1];
    }
    if x in s && x != s[i] {
      var k :| 0 <= k < |s| && s[k] == x;
      assert k != i;
      if k < i { assert r[k] == x; } else { assert r[k - 1] == x; }
    }
  }

  lemma RemoveDistinct(s: seq<int>, i: nat)
    requires i < |s| && Distinct(s)
    ensures Distinct(Remove(s, i))
  {
  }

  /** A lower bound of a list is a lower bound of any permutation of it. */
  lemma LowerBoundPermutation(x: int, s: seq<int>, t: seq<int>)
    requires multiset(s) == multiset(t) && LowerBound(x, s)
    ensures LowerBound(x, t)
  {
    forall k | 0 <= k < |t| ensures x <= t[k] {
      assert t[k] in multiset(t);
      assert t[k] in s;
    }
  }

  /** Sorting after position `at` keeps the node at `at`, everything before it, and the nodes from `at` on. */
  lemma RestSortedKeepsHead(before: seq<int>, after: seq<int>, at: nat)
    requires at < |before| == |after|
    requires after[..at + 1] == before[..at + 1]
    requires multiset(after[at + 1..]) == multiset(before[at + 1..])
    ensures after[at] == before[at] && after[..at] == before[..at]
    ensures multiset(after[at..]) == multiset(before[at..])
  {
    assert after[at] == after[..at + 1][at];
    assert after[..at] == after[..at + 1][..at];
    assert before[..at] == before[..at + 1][..at];
    assert after[at..] == [after[at]] + after[at + 1..];
    assert before[at..] == [before[at]] + before[at + 1..];
  }

  /**
   * The last step of List_sort: a sub-list whose head bounds it from below
   * and whose rest has been sorted in place is sorted.
   */
  lemma SortedAfterRest(mid: seq<int>, fin: seq<int>, at: nat)
    requires at < |mid| == |fin|
    requires fin[..at + 1] == mid[..at + 1]
    requires multiset(fin[at + 1..]) == multiset(mid[at + 1..])
    requires Sorted(fin[at + 1..])
    requires LowerBound(mid[at], mid[at..])
    ensures fin[..at] == mid[..at]
    ensures multiset(fin[at..]) == multiset(mid[at..])
    ensures Sorted(fin[at..])
  {
    assert fin[at] == fin[..at + 1][at] == mid[..at + 1][at] == mid[at];
    assert fin[..at] == fin[..at + 1][..at];
    assert mid[..at] == mid[..at + 1][..at];
    assert LowerBound(mid[at], mid[at + 1..]) by {
      var tail := mid[at + 1..];
      forall k | 0 <= k < |tail| ensures mid[at] <= tail[k] {
        assert tail[k] == mid[at..][k + 1];
      }
    }
    LowerBoundPermutation(mid[at], mid[at + 1..], fin[at + 1..]);
    assert fin[at..] == [fin[at]] + fin[at + 1..];
    assert mid[at..] == [mid[at]] + mid[at + 1..];
    forall i, j | 0 <= i < j < |fin[at..]| ensures fin[at..][i] <= fin[at..][j] {
      if i > 0 {
        assert fin[at..][i] == fin[at + 1..][i - 1];
        assert fin[at..][j] == fin[at + 1..][j - 1];
      } else {
        assert fin[at..][j] == fin[at + 1..][j - 1];
      }
    }
  }

  // ---------------------------------------------------------------------
  // The list itself
  // ---------------------------------------------------------------------

  class BlockList {
    /** The block addresses held by the nodes, head first. */
    var blocks: seq<int>

    /** A list whose head is NULL, or one created by List_createNode. */
    constructor (initial: seq<int>)
      ensures blocks == initial
    {
      blocks := initial;
    }

    /** List_findNode: the first node holding `x`, NULL when there is none. */
    method FindNode(x: int) returns (r: Option<nat>)
      ensures r == IndexOf(blocks, x)
    {
      var i := 0;
      while i < |blocks|
        invariant 0 <= i <= |blocks|
        invariant IndexFrom(blocks, x, i) == IndexOf(blocks, x)
      {
        if blocks[i] == x {
          return Some(i);
        }
        i := i + 1;
      }
      return None;
    }

    /** List_countNodes. */
    method CountNodes() returns (n: int)
      ensures n == |blocks|
      ensures n == 0 <==> blocks == []
    {
      if blocks == [] {
        return 0;
      }
      n := 1;
      while n < |blocks|
        invariant 1 <= n <= |blocks|
      {
        n := n + 1;
      }
    }

    /** List_insertHead: a block already in a non-empty list is rejected. */
    method InsertHead(x: int)
      modifies this
      ensures blocks == InsertedAtHead(old(blocks), x)
    {
      if blocks == [] {
        blocks := [x];
        return;
      }
      var found := FindNode(x);
      if found.Some? {
        return;
      }
      blocks := [x] + blocks;
    }

    /** List_insertTail: a block already in a non-empty list is rejected. */
    method InsertTail(x: int)
      modifies this
      ensures x in old(blocks) ==> blocks == old(blocks)
      ensures x !in old(blocks) ==> blocks == old(blocks) + [x]
    {
      if blocks == [] {
        blocks := [x];
        return;
      }
      var found := FindNode(x);
      if found.Some? {
        return;
      }
      blocks := blocks + [x];
    }

    /** List_deleteNode, given the position of a node of the list. */
    method DeleteNode(i: nat)
      requires i < |blocks|
      modifies this
      ensures blocks == Remove(old(blocks), i)
      ensures |old(blocks)| == 1 ==> blocks == []
    {
      var n := CountNodes();
      if n == 1 {
        blocks := [];
        return;
      }
      if i == 0 {
        blocks := blocks[1..];
        return;
      }
      blocks := blocks[..i] + blocks[i + 1..];
    }

    /** Overwriting the block address held by the node at position `i`. */
    method SetBlock(i: nat, x: int)
      requires i < |blocks|
      modifies this
      ensures blocks == old(blocks)[i := x]
    {
      blocks := blocks[i := x];
    }

    /** The scan of List_minNodePrev: position of the first minimum address from `at` on. */
    method MinIndex(at: nat) returns (k: nat)
      requires at < |blocks|
      ensures IsFirstMin(blocks, at, k)
    {
      k := at;
      var i := at + 1;
      while i < |blocks|
        invariant at + 1 <= i <= |blocks|
        invariant at <= k < i
        invariant forall j :: at <= j < i ==> blocks[k] <= blocks[j]
        invariant forall j :: at <= j < k ==> blocks[k] < blocks[j]
      {
        if blocks[i] < blocks[k] {
          k := i;
        }
        i := i + 1;
      }
    }

    /**
     * List_minNodePrev on the sub-list starting at `at`: the predecessor of
     * its first minimum-address node, NULL when that node is its head.
     */
    method MinNodePrev(at: nat) returns (r: Option<nat>)
      requires at <= |blocks|
      ensures at == |blocks| ==> r.None?
      ensures r.Some? ==> at <= r.value && IsFirstMin(blocks, at, r.value + 1)
      ensures r.None? && at < |blocks| ==> IsFirstMin(blocks, at, at)
    {
      if at == |blocks| {
        return None;
      }
      var k := MinIndex(at);
      if k == at {
        return None;
      }
      return Some(k - 1);
    }

    /**
     * List_swapNode: exchanges the head of the sub-list starting at `at`
     * with the successor of the node at `prev`.
     */
    method SwapNode(at: nat, prev: nat)
      requires at <= prev && prev + 1 < |blocks|
      modifies this
      ensures blocks == old(blocks)[at := old(blocks)[prev + 1]][prev + 1 := old(blocks)[at]]
      ensures multiset(blocks[at..]) == multiset(old(blocks)[at..])
      ensures blocks[..at] == old(blocks)[..at]
    {
      var head, min := blocks[at], blocks[prev + 1];
      blocks := blocks[at := min][prev + 1 := head];
      assert blocks[at..] == old(blocks)[at..][0 := min][prev + 1 - at := head];
    }

    /**
     * List_sort on the sub-list starting at `at`: selection sort that brings
     * the minimum to the front and sorts the rest.  When the minimum already
     * heads the sub-list, the rest is sorted twice, as in the source.
     */
    method Sort(at: nat)
      requires at <= |blocks|
      modifies this
      ensures |blocks| == |old(blocks)|
      ensures blocks[..at] == old(blocks)[..at]
      ensures multiset(blocks[at..]) == multiset(old(blocks)[at..])
      ensures Sorted(blocks[at..])
      decreases |blocks| - at
    {
      if at == |blocks| {
        return;
      }
      ghost var before := blocks;
      var prev := MinNodePrev(at);
      ghost var k: nat;
      if prev.None? {
        k := at;
        Sort(at + 1);
        RestSortedKeepsHead(before, blocks, at);
      } else {
        k := prev.value + 1;
        SwapNode(at, prev.value);
      }
      ghost var mid := blocks;
      assert mid[at] == before[k];
      assert multiset(mid[at..]) == multiset(before[at..]);
      assert mid[..at] == before[..at];
      assert LowerBound(mid[at], mid[at..]) by {
        assert LowerBound(before[k], before[at..]) by {
          assert IsFirstMin(before, at, k);
        }
        LowerBoundPermutation(before[k], before[at..], mid[at..]);
      }
      Sort(at + 1);
      SortedAfterRest(mid, blocks, at);
    }

    /**
     * List_smallest_chunk: 0 for an empty list, otherwise the least header
     * value over the list, each read as a signed char without `abs`.
     */
    method SmallestChunk(hdr: map<int, Byte>) returns (r: int)
      ensures blocks == [] ==> r == 0
      ensures blocks != [] ==> exists k :: 0 <= k < |blocks| && r == Raw(hdr, blocks[k])
      ensures forall k :: 0 <= k < |blocks| ==> r <= Raw(hdr, blocks[k])
    {
      if blocks == [] {
        return 0;
      }
      var min := 0;
      r := Raw(hdr, blocks[0]);
      var i := 1;
      while i < |blocks|
        invariant 1 <= i <= |blocks|
        invariant 0 <= min < i && r == Raw(hdr, blocks[min])
        invariant forall k :: 0 <= k < i ==> r <= Raw(hdr, blocks[k])
      {
        if Raw(hdr, blocks[i]) < Raw(hdr, blocks[min]) {
          min := i;
          r := Raw(hdr, blocks[i]);
        }
        i := i + 1;
      }
    }

    /**
     * List_largest_chunk: 0 for an empty list, otherwise the greatest header
     * value over the list, each read as a signed char without `abs`.
     */
    method LargestChunk(hdr: map<int, Byte>) returns (r: int)
      ensures blocks == [] ==> r == 0
      ensures blocks != [] ==> exists k :: 0 <= k < |blocks| && r == Raw(hdr, blocks[k])
      ensures forall k :: 0 <= k < |blocks| ==> Raw(hdr, blocks[k]) <= r
    {
      if blocks == [] {
        return 0;
      }
      var max := 0;
      r := Raw(hdr, blocks[0]);
      var i := 1;
      while i < |blocks|
        invariant 1 <= i <= |blocks|
        invariant 0 <= max < i && r == Raw(hdr, blocks[max])
        invariant forall k :: 0 <= k < i ==> Raw(hdr, blocks[k]) <= r
      {
        if Raw(hdr, blocks[i]) > Raw(hdr, blocks[max]) {
          max := i;
          r := Raw(hdr, blocks[i]);
        }
        i := i + 1;
      }
    }
  }
}
