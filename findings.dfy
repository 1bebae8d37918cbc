/**
 * Defects of myalloc/myalloc.c.  For each one, a lemma exhibits it on the
 * functions of HeapSpec, which follow the code as written, and a corrected
 * definition carries the property the code evidently aims for.
 */
module Findings {
  import opened Wrappers
  import opened HeaderCodec
  import opened List
  import opened HeapSpec
  import opened Accounting

  // ---------------------------------------------------------------------
  // The one-byte header (myalloc/myalloc.c:68 against :102, :168, :221)
  // ---------------------------------------------------------------------

  /**
   * An arena requested with 150 bytes is rounded to 192, but its header
   * reads back as 64: the low byte 0xC0 is the signed char -64.
   */
  lemma InitialSizeTruncated()
    ensures RoundUp64(150) == 192
    ensures Size(InitialHeap(RoundUp64(150)).hdr, ARENA) == 64
  {
  }

  // ---------------------------------------------------------------------
  // Best and worst fit (myalloc/myalloc.c:112-140)
  // ---------------------------------------------------------------------

  /**
   * The current candidate is read without `abs`, so a block whose header
   * byte is 128 compares as -128: best fit keeps the 128-byte block over a
   * later 40-byte one, and worst fit gives it up for the 40-byte one.
   */
  lemma FitScansMisreadFullByte()
    ensures var s, hdr := [8, 200], map[8 := 128, 200 := 40];
      && Size(hdr, 8) == 128 && Size(hdr, 200) == 40
      && BestFitUpTo(s, hdr, 16, 2) == Some(0)
      && WorstFitUpTo(s, hdr, 16, 2) == Some(1)
  {
    var s, hdr := [8, 200], map[8 := 128, 200 := 40];
    assert BestFitUpTo(s, hdr, 16, 1) == Some(0);
    assert WorstFitUpTo(s, hdr, 16, 1) == Some(0);
  }

  /** Best fit with the candidate read through `abs`, as every other size read is. */
  function BestFitFixed(s: seq<int>, hdr: map<int, Byte>, n: int, k: nat): (r: Option<nat>)
    requires k <= |s|
    ensures r.None? <==> forall j :: 0 <= j < k ==> Size(hdr, s[j]) < n
    ensures r.Some? ==> r.value < k && Size(hdr, s[r.value]) >= n
  {
    if k == 0 then None
    else
      var best := BestFitFixed(s, hdr, n, k - 1);
      if Size(hdr, s[k - 1]) >= n && (best.None? || Size(hdr, s[k - 1]) < Size(hdr, s[best.value])) then Some(k - 1)
      else best
  }

  /** Worst fit with the candidate read through `abs`. */
  function WorstFitFixed(s: seq<int>, hdr: map<int, Byte>, n: int, k: nat): (r: Option<nat>)
    requires k <= |s|
    ensures r.None? <==> forall j :: 0 <= j < k ==> Size(hdr, s[j]) < n
    ensures r.Some? ==> r.value < k && Size(hdr, s[r.value]) >= n
  {
    if k == 0 then None
    else
      var worst := WorstFitFixed(s, hdr, n, k - 1);
      if Size(hdr, s[k - 1]) >= n && (worst.None? || Size(hdr, s[k - 1]) > Size(hdr, s[worst.value])) then Some(k - 1)
      else worst
  }

  /** The corrected best fit picks the earliest entry of least size among those of at least n bytes, for any header bytes. */
  lemma {:induction false} BestFitFixedIsBest(s: seq<int>, hdr: map<int, Byte>, n: int, k: nat)
    requires k <= |s|
    ensures var r := BestFitFixed(s, hdr, n, k);
      r.Some? ==>
        (forall j :: 0 <= j < k && Size(hdr, s[j]) >= n ==> Size(hdr, s[r.value]) <= Size(hdr, s[j])) &&
        (forall j :: 0 <= j < r.value && Size(hdr, s[j]) >= n ==> Size(hdr, s[r.value]) < Size(hdr, s[j]))
  {
    if k > 0 {
      BestFitFixedIsBest(s, hdr, n, k - 1);
    }
  }

  /** The corrected worst fit picks the earliest entry of greatest size among those of at least n bytes, for any header bytes. */
  lemma {:induction false} WorstFitFixedIsWorst(s: seq<int>, hdr: map<int, Byte>, n: int, k: nat)
    requires k <= |s|
    ensures var r := WorstFitFixed(s, hdr, n, k);
      r.Some? ==>
        (forall j :: 0 <= j < k && Size(hdr, s[j]) >= n ==> Size(hdr, s[j]) <= Size(hdr, s[r.value])) &&
        (forall j :: 0 <= j < r.value && Size(hdr, s[j]) >= n ==> Size(hdr, s[j]) < Size(hdr, s[r.value]))
  {
    if k > 0 {
      WorstFitFixedIsWorst(s, hdr, n, k - 1);
    }
  }

  /** Where every header byte is below 128 the corrected best fit picks what best fit as written picks. */
  lemma {:induction false} BestFitFixedAgrees(s: seq<int>, hdr: map<int, Byte>, n: int, k: nat)
    requires k <= |s| && Exact(s, hdr)
    ensures BestFitFixed(s, hdr, n, k) == BestFitUpTo(s, hdr, n, k)
  {
    if k > 0 {
      BestFitFixedAgrees(s, hdr, n, k - 1);
      var b := BestFitUpTo(s, hdr, n, k - 1);
      if b.Some? {
        RawIsSize(hdr, s[b.value]);
      }
    }
  }

  /** Where every header byte is below 128 the corrected worst fit picks what worst fit as written picks. */
  lemma {:induction false} WorstFitFixedAgrees(s: seq<int>, hdr: map<int, Byte>, n: int, k: nat)
    requires k <= |s| && Exact(s, hdr)
    ensures WorstFitFixed(s, hdr, n, k) == WorstFitUpTo(s, hdr, n, k)
  {
    if k > 0 {
      WorstFitFixedAgrees(s, hdr, n, k - 1);
      var w := WorstFitUpTo(s, hdr, n, k - 1);
      if w.Some? {
        RawIsSize(hdr, s[w.value]);
      }
    }
  }


  // ---------------------------------------------------------------------
  // deallocate (myalloc/myalloc.c:196-263)
  // ---------------------------------------------------------------------

  /**
   * The right merge returns before p leaves the allocated list: p ends up
   * registered as free and as allocated, with the merged size, so the
   * registries account for more bytes than the arena holds.
   */
  lemma RightMergeDoubleBooks()
    ensures var st := Heap([24], [8], map[8 := 8, 24 := 8]);
      var st' := Deallocate(st, 8);
      && 8 in st'.free && 8 in st'.alloc
      && Footprint(st) == 32 && Footprint(st') == 64
  {
    var st := Heap([24], [8], map[8 := 8, 24 := 8]);
    assert IndexOf(st.free, 24) == Some(0);
    var st' := Deallocate(st, 8);
    assert st' == Heap([8], [8], map[8 := 24, 24 := 8]);
    assert SumSizes([8], st'.hdr) == 24 by { assert [8][1..] == []; }
    assert SumSizes([8], st.hdr) == 8 by { assert [8][1..] == []; }
    assert SumSizes([24], st.hdr) == 8 by { assert [24][1..] == []; }
  }

  /**
   * The left-merge loop starts where the right-merge scan stopped, at the
   * end of the list, so a block released next to a free block on its left
   * stays a separate entry.
   */
  lemma NoLeftMerge()
    ensures var st := Heap([8], [24], map[8 := 8, 24 := 8]);
      && RightOf(st.hdr, 8) == 24
      && Deallocate(st, 24).free == [24, 8]
  {
    var st := Heap([8], [24], map[8 := 8, 24 := 8]);
    assert IndexOf(st.free, 40) == None;
    assert IndexOf(st.alloc, 24) == Some(0);
  }

  /** With no free block at all, deallocate returns early and the block stays allocated for good. */
  lemma EmptyFreeListLosesBlock()
    ensures var st := Heap([], [8], map[8 := 120]);
      Deallocate(st, 8) == st
  {
  }

  /** The position of the first free entry whose block ends right where p's header begins. */
  function LeftNeighbour(s: seq<int>, hdr: map<int, Byte>, p: int, from: nat): (r: Option<nat>)
    requires from <= |s|
    ensures r.None? <==> forall k :: from <= k < |s| ==> RightOf(hdr, s[k]) != p
    ensures r.Some? ==> from <= r.value < |s| && RightOf(hdr, s[r.value]) == p
    decreases |s| - from
  {
    if from == |s| then None
    else if RightOf(hdr, s[from]) == p then Some(from)
    else LeftNeighbour(s, hdr, p, from + 1)
  }

  /**
   * deallocate as intended: p always leaves the allocated list; it merges
   * with a free right neighbour, else a free left neighbour absorbs it,
   * else it joins the free list on its own, also when that list is empty.
   */
  function DeallocateFixed(st: Heap, p: int): (st': Heap)
    requires p in st.alloc
    ensures |st'.alloc| == |st.alloc| - 1
  {
    var size := Size(st.hdr, p);
    var alloc := Remove(st.alloc, IndexOf(st.alloc, p).value);
    match IndexOf(st.free, RightOf(st.hdr, p))
      case Some(i) =>
        Heap([p] + Remove(st.free, i), alloc, st.hdr[p := Encode(size + HEADER_SIZE + Size(st.hdr, st.free[i]))])
      case None =>
        match LeftNeighbour(st.free, st.hdr, p, 0)
          case Some(j) =>
            var b := st.free[j];
            Heap([b] + Remove(st.free, j), alloc, st.hdr[b := Encode(Size(st.hdr, b) + HEADER_SIZE + size)])
          case None =>
            Heap([p] + st.free, alloc, st.hdr)
  }

  /** The allocated list loses p and keeps its other blocks' sizes. */
  lemma ReleasedSum(alloc: seq<int>, hdr: map<int, Byte>, p: int, hdr': map<int, Byte>)
    requires p in alloc && Distinct(alloc)
    requires forall k :: 0 <= k < |alloc| && alloc[k] != p ==> Load(hdr', alloc[k]) == Load(hdr, alloc[k])
    ensures var alloc' := Remove(alloc, IndexOf(alloc, p).value);
      && p !in alloc'
      && SumSizes(alloc', hdr') == SumSizes(alloc, hdr) - Size(hdr, p)
  {
    var ip := IndexOf(alloc, p).value;
    var alloc' := Remove(alloc, ip);
    RemoveMembers(alloc, ip, p);
    SumSizesRemove(alloc, ip, hdr);
    forall k | 0 <= k < |alloc'| ensures Load(hdr', alloc'[k]) == Load(hdr, alloc'[k]) {
      assert alloc'[k] in alloc && alloc'[k] != p;
    }
    SumSizesFrame(alloc', hdr, hdr');
  }

  /** DeallocateFixed when the free entry at position i starts right after p. */
  lemma DeallocateFixedMergesRight(st: Heap, p: int, i: nat)
    requires p in st.alloc && i < |st.free| && IndexOf(st.free, RightOf(st.hdr, p)) == Some(i)
    ensures DeallocateFixed(st, p) ==
      Heap([p] + Remove(st.free, i), Remove(st.alloc, IndexOf(st.alloc, p).value),
           st.hdr[p := Encode(Size(st.hdr, p) + HEADER_SIZE + Size(st.hdr, st.free[i]))])
  {
  }

  /** DeallocateFixed when only the free entry at position j ends right before p. */
  lemma DeallocateFixedMergesLeft(st: Heap, p: int, j: nat)
    requires p in st.alloc && j < |st.free| && IndexOf(st.free, RightOf(st.hdr, p)).None?
    requires LeftNeighbour(st.free, st.hdr, p, 0) == Some(j)
    ensures DeallocateFixed(st, p) ==
      Heap([st.free[j]] + Remove(st.free, j), Remove(st.alloc, IndexOf(st.alloc, p).value),
           st.hdr[st.free[j] := Encode(Size(st.hdr, st.free[j]) + HEADER_SIZE + Size(st.hdr, p))])
  {
  }

  /**
   * The bookkeeping of a merge of deallocate on the lists themselves: p
   * leaves the allocated list, the free entry at position i leaves the free
   * list, and x, which is p or a free block that is not allocated, heads the
   * free list with header `total`, the two sizes and the header between.
   */
  lemma MergeReleaseSums(free: seq<int>, alloc: seq<int>, hdr: map<int, Byte>, p: int, i: nat, x: int, total: int)
    requires p in alloc && Distinct(alloc) && i < |free|
    requires x !in Remove(free, i) && (x == p || x !in alloc)
    requires total == Size(hdr, p) + HEADER_SIZE + Size(hdr, free[i]) && total <= 128
    ensures Footprint(Heap([x] + Remove(free, i), Remove(alloc, IndexOf(alloc, p).value), hdr[x := Encode(total)]))
         == Footprint(Heap(free, alloc, hdr))
  {
    var rest := Remove(free, i);
    var hdr' := hdr[x := Encode(total)];
    DecodeEncode(total);
    SumSizesRemove(free, i, hdr);
    SumSizesWriteElsewhere(rest, hdr, x, Encode(total));
    SumSizesCons(x, rest, hdr');
    ReleasedSum(alloc, hdr, p, hdr');
  }

  /**
   * Merging with the right neighbour: p becomes one free block covering
   * both, leaves the allocated list, and no byte is gained or lost.
   */
  lemma DeallocateFixedRight(st: Heap, p: int)
    requires p in st.alloc && Distinct(st.alloc) && Distinct(st.free) && Disjoint(st.free, st.alloc)
    requires RightOf(st.hdr, p) in st.free
    requires Size(st.hdr, p) + HEADER_SIZE + Size(st.hdr, RightOf(st.hdr, p)) <= 128
    ensures var st' := DeallocateFixed(st, p);
      && p in st'.free && p !in st'.alloc && RightOf(st.hdr, p) !in st'.free
      && Size(st'.hdr, p) == Size(st.hdr, p) + HEADER_SIZE + Size(st.hdr, RightOf(st.hdr, p))
      && Footprint(st') == Footprint(st)
  {
    var q := RightOf(st.hdr, p);
    var i := IndexOf(st.free, q).value;
    var total := Size(st.hdr, p) + HEADER_SIZE + Size(st.hdr, q);
    DeallocateFixedMergesRight(st, p, i);
    assert p !in st.free;
    RemoveMembers(st.free, i, q);
    RemoveMembers(st.free, i, p);
    DecodeEncode(total);
    MergeReleaseSums(st.free, st.alloc, st.hdr, p, i, p, total);
  }

  /**
   * Merging with the left neighbour b: b grows over p's header and bytes
   * and p leaves both lists.
   */
  lemma DeallocateFixedLeft(st: Heap, p: int, j: nat)
    requires p in st.alloc && Distinct(st.alloc) && Distinct(st.free) && Disjoint(st.free, st.alloc)
    requires RightOf(st.hdr, p) !in st.free && LeftNeighbour(st.free, st.hdr, p, 0) == Some(j)
    requires Size(st.hdr, st.free[j]) + HEADER_SIZE + Size(st.hdr, p) <= 128
    ensures var b, st' := st.free[j], DeallocateFixed(st, p);
      && b in st'.free && p !in st'.free && p !in st'.alloc
      && Size(st'.hdr, b) == Size(st.hdr, b) + HEADER_SIZE + Size(st.hdr, p)
  {
    var b := st.free[j];
    DeallocateFixedMergesLeft(st, p, j);
    assert p !in st.free;
    RemoveMembers(st.free, j, p);
    RemoveMembers(st.alloc, IndexOf(st.alloc, p).value, p);
    DecodeEncode(Size(st.hdr, b) + HEADER_SIZE + Size(st.hdr, p));
  }

  /** ... and no byte is gained or lost. */
  lemma DeallocateFixedLeftConserves(st: Heap, p: int, j: nat)
    requires p in st.alloc && Distinct(st.alloc) && Distinct(st.free) && Disjoint(st.free, st.alloc)
    requires RightOf(st.hdr, p) !in st.free && LeftNeighbour(st.free, st.hdr, p, 0) == Some(j)
    requires Size(st.hdr, st.free[j]) + HEADER_SIZE + Size(st.hdr, p) <= 128
    ensures Footprint(DeallocateFixed(st, p)) == Footprint(st)
  {
    var b := st.free[j];
    DeallocateFixedMergesLeft(st, p, j);
    assert b !in st.alloc;
    RemoveMembers(st.free, j, b);
    MergeReleaseSums(st.free, st.alloc, st.hdr, p, j, b, Size(st.hdr, b) + HEADER_SIZE + Size(st.hdr, p));
  }

  /**
   * With no free neighbour, also when the free list is empty, p moves to
   * the head of the free list, and no byte is gained or lost.
   */
  lemma DeallocateFixedAlone(st: Heap, p: int)
    requires p in st.alloc && Distinct(st.alloc) && Disjoint(st.free, st.alloc)
    requires RightOf(st.hdr, p) !in st.free && LeftNeighbour(st.free, st.hdr, p, 0).None?
    ensures var st' := DeallocateFixed(st, p);
      && st'.free == [p] + st.free && p !in st'.alloc
      && Footprint(st') == Footprint(st)
  {
    SumSizesCons(p, st.free, st.hdr);
    ReleasedSum(st.alloc, st.hdr, p, st.hdr);
  }

  // ---------------------------------------------------------------------
  // compact_allocation (myalloc/myalloc.c:405-467)
  // ---------------------------------------------------------------------

  /**
   * Only the head of the allocated list is looked at: with [8, 72]
   * allocated and the leftmost free block at 40, block 72 lies above it and
   * is not found.
   */
  lemma HeadOnlyMissesCandidate()
    ensures HeadCandidate([8, 72], 40).None?
    ensures AnyAbove([8, 72], 40)
  {
    assert [8, 72][1] == 72;
  }

  /**
   * The position of the lowest allocated address above x, from position
   * `from` on: the candidate the `else if` at myalloc/myalloc.c:431 looks
   * for if it ran inside a loop.  The first of equal addresses wins.
   */
  function LowestAbove(s: seq<int>, x: int, from: nat): (r: Option<nat>)
    requires from <= |s|
    ensures r.None? <==> forall k :: from <= k < |s| ==> s[k] <= x
    ensures r.Some? ==> from <= r.value < |s| && s[r.value] > x
    ensures r.Some? ==> forall k :: from <= k < |s| && s[k] > x ==> s[r.value] <= s[k]
    decreases |s| - from
  {
    if from == |s| then None
    else
      var rest := LowestAbove(s, x, from + 1);
      if s[from] > x && (rest.None? || s[from] <= s[rest.value]) then Some(from) else rest
  }

  /**
   * A compaction round as intended: the lowest allocated block above the
   * leftmost free block moves down to it, its entry in the allocated list
   * follows it, and the freed space starts right after its new extent.
   * None when no allocated block lies above the leftmost free block.
   */
  function FixedStep(st: Heap): (r: Option<Heap>)
    requires st.free != []
    ensures r.Some? ==> |r.value.alloc| == |st.alloc|
  {
    var leftmost := st.free[FirstMinIndex(st.free, 0)];
    match LowestAbove(st.alloc, leftmost, 0)
      case None => None
      case Some(ia) =>
        var a := st.alloc[ia];
        var e := leftmost + Size(st.hdr, a) + HEADER_SIZE;
        var hdr := st.hdr[leftmost := Load(st.hdr, a)];
        var free := Remove(st.free, FirstMinIndex(st.free, 0));
        var alloc := st.alloc[ia := leftmost];
        if e in free then Some(Heap(free, alloc, hdr))
        else Some(Heap([e] + free, alloc, hdr[e := Encode(Size(st.hdr, leftmost))]))
  }

  /**
   * A corrected round moves exactly one allocated entry, down to the
   * leftmost free block, and keeps its size there; the allocated list keeps
   * its blocks apart when the leftmost free address was not allocated.
   */
  lemma FixedStepMovesOne(st: Heap)
    requires st.free != [] && FixedStep(st).Some?
    ensures var leftmost := st.free[FirstMinIndex(st.free, 0)];
      var ia := LowestAbove(st.alloc, leftmost, 0).value;
      var st' := FixedStep(st).value;
      && st.alloc[ia] > leftmost
      && st'.alloc == st.alloc[ia := leftmost]
      && Size(st'.hdr, leftmost) == Size(st.hdr, st.alloc[ia])
      && (Distinct(st.alloc) && leftmost !in st.alloc ==> Distinct(st'.alloc))
  {
    var leftmost := st.free[FirstMinIndex(st.free, 0)];
    var ia := LowestAbove(st.alloc, leftmost, 0).value;
    if Distinct(st.alloc) && leftmost !in st.alloc {
      MoveKeepsDistinct(st.alloc, ia, leftmost);
    }
  }

  /**
   * After a corrected round the free list holds the payload address of the
   * block that follows the moved one (its header starts right after it).
   */
  lemma FixedStepFreesAfter(st: Heap)
    requires st.free != [] && FixedStep(st).Some?
    ensures var leftmost := st.free[FirstMinIndex(st.free, 0)];
      RightOf(FixedStep(st).value.hdr, leftmost) in FixedStep(st).value.free
  {
  }

  /** Moving an entry to an address not yet listed keeps the list free of repeats. */
  lemma MoveKeepsDistinct(s: seq<int>, i: nat, x: int)
    requires i < |s| && Distinct(s) && x !in s
    ensures Distinct(s[i := x])
  {
  }

  /**
   * The final loop of compact_allocation sets every allocated entry to the
   * same address, so any two allocated blocks end up with one address.
   */
  lemma AllAtCollapses(n: nat, target: int)
    requires n >= 2
    ensures !Distinct(AllAt(n, target))
  {
    var s := AllAt(n, target);
    assert s[0] == s[1];
  }

  /**
   * A round writes the relocated block's header and then the new free
   * entry 8 bytes too low: with block 40 of size 16 moved to free block 8,
   * its payload is 8..23 and the next block's payload belongs at 32, but
   * the new free entry is 24.
   */
  lemma RelocatedFreeOffByEight()
    ensures var st := Heap([8], [40], map[8 := 24, 40 := 16]);
      var st' := Relocated(st, 0, 40);
      && st'.free == [24]
      && RightOf(st'.hdr, 8) == 32
  {
    var st := Heap([8], [40], map[8 := 24, 40 := 16]);
    assert Remove(st.free, 0) == [];
  }

  /**
   * A state in which compaction never leaves its loop: one free block at
   * 40 below block 72, but the allocated list's head, 8, lies below it, so
   * no round moves anything and is_fragmented keeps answering true.
   */
  lemma {:induction false} CompactionSpins(fuel: nat, dest: int)
    ensures var st := Heap([40], [8, 72], map[8 := 24, 40 := 24, 72 := 56]);
      IsFragmented(st) == (true, st) && CompactLoop(true, st, fuel, dest) == Unfinished(st)
  {
    var st := Heap([40], [8, 72], map[8 := 24, 40 := 24, 72 := 56]);
    assert st.alloc[1] == 72;
    assert FirstMinIndex(st.free, 0) == 0;
    if fuel > 0 {
      CompactionSpins(fuel - 1, dest);
    }
  }

  /** Every address of the list is at least lo. */
  predicate AtOrAbove(s: seq<int>, lo: int) {
    forall k :: 0 <= k < |s| ==> lo <= s[k]
  }

  /** How far the allocated blocks lie above the start of the arena, added up. */
  function Excess(s: seq<int>): (r: nat)
    requires AtOrAbove(s, ARENA)
  {
    if s == [] then 0 else (s[0] - ARENA) + Excess(s[1..])
  }

  lemma {:induction false} ExcessReplace(s: seq<int>, i: nat, x: int)
    requires AtOrAbove(s, ARENA) && i < |s| && x >= ARENA
    ensures AtOrAbove(s[i := x], ARENA)
    ensures Excess(s[i := x]) == Excess(s) - s[i] + x
  {
    if i == 0 {
      assert s[i := x][1..] == s[1..];
    } else {
      assert s[i := x][1..] == s[1..][i - 1 := x];
      ExcessReplace(s[1..], i - 1, x);
    }
  }

  /** is_fragmented only drops free entries. */
  lemma IsFragmentedKeepsBounds(st: Heap)
    requires AtOrAbove(st.free, ARENA)
    ensures AtOrAbove(IsFragmented(st).1.free, ARENA)
  {
    if |st.free| > 1 && FindPair(st.free, st.hdr, 0).Some? {
      var (i, j) := FindPair(st.free, st.hdr, 0).value;
      IsFragmentedFindsPair(st, i, j);
    }
  }

  /** A corrected round keeps every address in the arena and moves one block strictly down. */
  lemma FixedStepDescends(st: Heap)
    requires st.free != [] && AtOrAbove(st.free, ARENA) && AtOrAbove(st.alloc, ARENA)
    requires FixedStep(st).Some?
    ensures AtOrAbove(FixedStep(st).value.free, ARENA) && AtOrAbove(FixedStep(st).value.alloc, ARENA)
    ensures Excess(FixedStep(st).value.alloc) < Excess(st.alloc)
  {
    var lm := FirstMinIndex(st.free, 0);
    var leftmost := st.free[lm];
    var ia := LowestAbove(st.alloc, leftmost, 0).value;
    ExcessReplace(st.alloc, ia, leftmost);
  }

  /**
   * compact_allocation's loop as intended: rounds run while the arena is
   * fragmented and a block can move down.  Each round moves a block to a
   * lower address, so the loop ends, and when it ends no allocated block
   * lies above the lowest free block.
   */
  function CompactFixed(st: Heap): (r: Heap)
    requires AtOrAbove(st.free, ARENA) && AtOrAbove(st.alloc, ARENA)
    ensures |r.alloc| == |st.alloc|
    ensures r.free != [] ==> !AnyAbove(r.alloc, r.free[FirstMinIndex(r.free, 0)])
    decreases Excess(st.alloc)
  {
    var (frag, st1) := IsFragmented(st);
    IsFragmentedKeepsBounds(st);
    if !frag then st1
    else match FixedStep(st1)
      case None => st1
      case Some(st2) =>
        FixedStepDescends(st1);
        CompactFixed(st2)
  }
}
