/**
 * The allocator of myalloc/myalloc.c: the global `struct Myalloc` as a
 * class whose methods update its fields in place, each proved to follow
 * the corresponding function of HeapSpec.  The mutex is left out: every
 * operation is modelled as running alone.
 */
module Myalloc {
  import opened Wrappers
  import opened HeaderCodec
  import opened List
  import opened HeapSpec

  class Allocator {
    const algorithm: Algorithm
    /** The rounded arena size. */
    const size: int
    /** Payload address of the first block. */
    const memory: int
    const freeList: BlockList
    const allocList: BlockList
    /** The low byte of every header written so far, keyed by payload address. */
    var hdr: map<int, Byte>
    /** The cached statistics fields. */
    var availableMemory: int
    var usedMemory: int

    ghost predicate Valid() {
      freeList != allocList
    }

    /** The registries and headers as a value. */
    ghost function State(): Heap
      reads this, freeList, allocList
    {
      Heap(freeList.blocks, allocList.blocks, hdr)
    }

    /** The cached fields equal the sums over the lists. */
    ghost predicate StatsCached()
      reads this, freeList, allocList
    {
      availableMemory == SumSizes(freeList.blocks, hdr) && usedMemory == SumSizes(allocList.blocks, hdr)
    }

    /**
     * initialize_allocator: the size rounded up to a multiple of 64, one
     * free block spanning the arena with that size in its header, and no
     * allocated block.
     */
    constructor Initialize(n: int, alg: Algorithm)
      requires n > 0
      ensures Valid() && fresh(freeList) && fresh(allocList)
      ensures algorithm == alg && size == RoundUp64(n) && memory == ARENA
      ensures State() == InitialHeap(size)
      ensures availableMemory == size && usedMemory == 0
    {
      algorithm := alg;
      var rounded := ((n + 63) / 64) * 64;
      size := rounded;
      memory := HEADER_SIZE;
      allocList := new BlockList([]);
      freeList := new BlockList([HEADER_SIZE]);
      hdr := map[HEADER_SIZE := Encode(rounded)];
      availableMemory := rounded;
      usedMemory := 0;
    }

    /** The loop shared by available_memory and used_memory. */
    method SumOver(s: seq<int>) returns (total: int)
      ensures total == SumSizes(s, hdr)
    {
      total := 0;
      var i := 0;
      while i < |s|
        invariant 0 <= i <= |s|
        invariant total + SumSizes(s[i..], hdr) == SumSizes(s, hdr)
      {
        assert s[i..][1..] == s[i + 1..];
        total := total + Size(hdr, s[i]);
        i := i + 1;
      }
    }

    /** available_memory: the sizes of the free blocks, added up. */
    method AvailableMemory() returns (r: int)
      ensures r == SumSizes(freeList.blocks, hdr)
    {
      r := SumOver(freeList.blocks);
    }

    /** used_memory: the sizes of the allocated blocks, added up. */
    method UsedMemory() returns (r: int)
      ensures r == SumSizes(allocList.blocks, hdr)
    {
      r := SumOver(allocList.blocks);
    }

    /** The FIRST_FIT case of allocate. */
    method FirstFitScan(n: int) returns (r: Option<nat>)
      ensures r == FirstFitFrom(freeList.blocks, hdr, n, 0)
    {
      var s := freeList.blocks;
      var i := 0;
      while i < |s|
        invariant 0 <= i <= |s|
        invariant FirstFitFrom(s, hdr, n, 0) == FirstFitFrom(s, hdr, n, i)
      {
        if Size(hdr, s[i]) >= n {
          return Some(i);
        }
        i := i + 1;
      }
      return None;
    }

    /** The BEST_FIT case of allocate. */
    method BestFitScan(n: int) returns (r: Option<nat>)
      ensures r == BestFitUpTo(freeList.blocks, hdr, n, |freeList.blocks|)
    {
      var s := freeList.blocks;
      r := None;
      var i := 0;
      while i < |s|
        invariant 0 <= i <= |s|
        invariant r == BestFitUpTo(s, hdr, n, i)
      {
        var currFreeSize := Size(hdr, s[i]);
        if currFreeSize >= n {
          if r.None? {
            r := Some(i);
          } else if currFreeSize < Raw(hdr, s[r.value]) {
            r := Some(i);
          }
        }
        i := i + 1;
      }
    }

    /** The WORST_FIT case of allocate. */
    method WorstFitScan(n: int) returns (r: Option<nat>)
      ensures r == WorstFitUpTo(freeList.blocks, hdr, n, |freeList.blocks|)
    {
      var s := freeList.blocks;
      r := None;
      var i := 0;
      while i < |s|
        invariant 0 <= i <= |s|
        invariant r == WorstFitUpTo(s, hdr, n, i)
      {
        var currFreeSize := Size(hdr, s[i]);
        if currFreeSize >= n {
          if r.None? {
            r := Some(i);
          } else if currFreeSize > Raw(hdr, s[r.value]) {
            r := Some(i);
          }
        }
        i := i + 1;
      }
    }

    /** The strategy switch of allocate. */
    method Pick(n: int) returns (c: Option<nat>)
      ensures c == Choose(algorithm, freeList.blocks, hdr, n)
    {
      match algorithm {
        case FirstFit => c := FirstFitScan(n);
        case BestFit => c := BestFitScan(n);
        case WorstFit => c := WorstFitScan(n);
      }
    }

    /**
     * The split of allocate: header n for the block handed out, the
     * remainder's header n + 8 bytes further on, and the free-list node of p
     * moved to the remainder.
     */
    method Split(p: int, n: int)
      requires p in freeList.blocks
      modifies this, freeList
      ensures var q := p + n + HEADER_SIZE;
        && freeList.blocks == old(freeList.blocks)[IndexOf(old(freeList.blocks), p).value := q]
        && hdr == old(hdr)[p := Encode(n)][q := Encode(Size(old(hdr), p) - n - HEADER_SIZE)]
      ensures availableMemory == old(availableMemory) && usedMemory == old(usedMemory)
    {
      var leftover := Size(hdr, p) - n;
      var q := p + n + HEADER_SIZE;
      hdr := hdr[p := Encode(n)][q := Encode(leftover - HEADER_SIZE)];
      var chunk := freeList.FindNode(p);
      freeList.SetBlock(chunk.value, q);
    }

    /** Handing out p whole: its node leaves the free list and no header changes. */
    method TakeWhole(p: int)
      requires p in freeList.blocks
      modifies freeList
      ensures freeList.blocks == Remove(old(freeList.blocks), IndexOf(old(freeList.blocks), p).value)
    {
      var chunk := freeList.FindNode(p);
      freeList.DeleteNode(chunk.value);
    }

    /** Recomputes the cached statistics, as allocate and deallocate end by doing. */
    method RefreshStatistics()
      modifies this
      ensures hdr == old(hdr) && StatsCached()
    {
      availableMemory := AvailableMemory();
      usedMemory := UsedMemory();
    }

    /** allocate(n). */
    method Allocate(n: int) returns (r: Option<int>)
      requires Valid() && n > 0
      modifies this, freeList, allocList
      ensures Valid()
      ensures (State(), r) == HeapSpec.Allocate(algorithm, old(State()), n)
      ensures r.Some? ==> StatsCached()
      ensures r.None? ==> availableMemory == old(availableMemory) && usedMemory == old(usedMemory)
    {
      ghost var st := State();
      if freeList.blocks == [] {
        return None;
      }
      var c := Pick(n);
      if c.None? {
        return None;
      }
      r := HandOut(n, c.value);
    }

    /**
     * The tail of allocate once the strategy has picked position c: the
     * block joins the allocated list, is split or handed out whole, and the
     * statistics are recomputed.
     */
    method HandOut(n: int, c: nat) returns (r: Option<int>)
      requires Valid() && n > 0 && freeList.blocks != []
      requires Choose(algorithm, freeList.blocks, hdr, n) == Some(c)
      modifies this, freeList, allocList
      ensures (State(), r) == HeapSpec.Allocate(algorithm, old(State()), n)
      ensures StatsCached()
    {
      ghost var st := State();
      var p := freeList.blocks[c];
      allocList.InsertHead(p);
      var ptrFreeSize := Size(hdr, p);
      if ptrFreeSize - n > HEADER_SIZE {
        AllocatePickedSplits(algorithm, st, n, c);
        Split(p, n);
      } else {
        AllocatePickedWhole(algorithm, st, n, c);
        TakeWhole(p);
      }
      ghost var after := State();
      assert (after, Some(p)) == HeapSpec.Allocate(algorithm, st, n);
      RefreshStatistics();
      assert State() == after;
      return Some(p);
    }

    /**
     * The right merge of deallocate: p's header grows by the header and the
     * size of the free block at position i, which starts right after p and
     * leaves the free list, and p becomes the head of the free list.  p
     * stays in the allocated list.
     */
    method AbsorbRight(p: int, i: nat)
      requires Valid() && p in allocList.blocks && i < |freeList.blocks|
      requires IndexOf(freeList.blocks, p + Size(hdr, p) + HEADER_SIZE) == Some(i)
      modifies this, freeList
      ensures State() == HeapSpec.Deallocate(old(State()), p)
      ensures availableMemory == old(availableMemory) && usedMemory == old(usedMemory)
    {
      ghost var st := State();
      DeallocateMergesRight(st, p, i);
      hdr := hdr[p := Encode(Size(hdr, p) + HEADER_SIZE + Size(hdr, freeList.blocks[i]))];
      freeList.DeleteNode(i);
      freeList.InsertHead(p);
    }

    /**
     * The plain path of deallocate, taken when no free block starts right
     * after p: p moves from the allocated list to the head of the free list.
     */
    method Release(p: int)
      requires Valid() && p in allocList.blocks && freeList.blocks != []
      requires IndexOf(freeList.blocks, p + Size(hdr, p) + HEADER_SIZE).None?
      modifies freeList, allocList
      ensures State() == HeapSpec.Deallocate(old(State()), p)
    {
      ghost var st := State();
      DeallocateReleases(st, p);
      var node := allocList.FindNode(p);
      allocList.DeleteNode(node.value);
      freeList.InsertHead(p);
    }

    /** deallocate(p), p an allocated block. */
    method Deallocate(p: int)
      requires Valid() && p in allocList.blocks
      modifies this, freeList, allocList
      ensures Valid()
      ensures State() == HeapSpec.Deallocate(old(State()), p)
      ensures old(freeList.blocks) != [] ==> StatsCached()
      ensures old(freeList.blocks) == [] ==> availableMemory == old(availableMemory) && usedMemory == old(usedMemory)
    {
      ghost var st := State();
      var ptrSize := Size(hdr, p);
      if freeList.blocks == [] {
        return;
      }
      // The scan for a free block starting right after p's extent.
      var right := freeList.FindNode(p + ptrSize + HEADER_SIZE);
      if right.Some? {
        AbsorbRight(p, right.value);
      } else {
        // The left-neighbour loop of the source starts where the scan above
        // ended, at the end of the list, so its body never runs.
        Release(p);
      }
      ghost var after := State();
      RefreshStatistics();
      assert State() == after;
    }

    /**
     * The merge of is_fragmented for the free entries at positions i < j,
     * found adjacent in the way `kind` says: the lower block absorbs the
     * header and the size of the upper one, whose node leaves the list.
     */
    method MergePair(i: nat, j: nat, kind: int)
      requires Valid() && i < j < |freeList.blocks|
      requires kind != 0 && kind == Adjacency(hdr, freeList.blocks[i], freeList.blocks[j])
      modifies this, freeList
      ensures State() == Merge(old(State()), i, j)
      ensures availableMemory == old(availableMemory) && usedMemory == old(usedMemory)
    {
      ghost var st := State();
      var current, adjacent := freeList.blocks[i], freeList.blocks[j];
      var sizeAdj := Size(hdr, adjacent);
      var sizeCurrent := Size(hdr, current);
      if kind == 2 {
        ghost var expected := Merge(st, i, j);
        assert expected.hdr == st.hdr[current := Encode(sizeCurrent + HEADER_SIZE + sizeAdj)];
        hdr := hdr[current := Encode(sizeCurrent + HEADER_SIZE + sizeAdj)];
        freeList.DeleteNode(j);
      }
      if kind == 1 {
        ghost var expected := Merge(st, i, j);
        assert expected.hdr == st.hdr[adjacent := Encode(sizeAdj + HEADER_SIZE + sizeCurrent)];
        hdr := hdr[adjacent := Encode(sizeAdj + HEADER_SIZE + sizeCurrent)];
        freeList.DeleteNode(i);
      }
    }

    /** is_fragmented, with its merging side effect on the free list. */
    method IsFragmented() returns (r: bool)
      requires Valid()
      modifies this, freeList
      ensures Valid() && allocList.blocks == old(allocList.blocks)
      ensures availableMemory == old(availableMemory) && usedMemory == old(usedMemory)
      ensures (r, State()) == HeapSpec.IsFragmented(old(State()))
    {
      var numFree := freeList.CountNodes();
      if numFree == 0 {
        return false;
      }
      if numFree > 1 {
        ghost var st := State();
        var hasAdj, current, adjacent := PairScan(freeList.blocks, hdr);
        if hasAdj != 0 {
          IsFragmentedFindsPair(st, current, adjacent);
          MergePair(current, adjacent, hasAdj);
        }
        return true;
      }
      var k := 0;
      while k < |allocList.blocks|
        invariant 0 <= k <= |allocList.blocks|
        invariant forall m :: 0 <= m < k ==> allocList.blocks[m] <= freeList.blocks[0]
      {
        if freeList.blocks[0] < allocList.blocks[k] {
          return true;
        }
        k := k + 1;
      }
      return false;
    }

    /**
     * One round of the compaction loop: the leftmost free block, the head of
     * the allocated list as the only candidate, and when it qualifies the
     * header copy, the dropped free entry and the new one.  Returns the
     * header address copied to, or `dest` when nothing moves.
     */
    method CompactRound(dest: int) returns (d: int)
      requires Valid() && freeList.blocks != []
      modifies this, freeList
      ensures (State(), d) == CompactStep(old(State()), dest)
      ensures availableMemory == old(availableMemory) && usedMemory == old(usedMemory)
    {
      ghost var st := State();
      // The scan for the lowest free address is List_minNodePrev's.
      var lm := freeList.MinIndex(0);
      FirstMinUnique(st.free, 0, lm, FirstMinIndex(st.free, 0));
      var leftmost := freeList.blocks[lm];
      var adjacent: Option<int> := None;
      if allocList.blocks != [] {
        var allocAdj := allocList.blocks[0];
        // The source also has an arm for an earlier candidate, which cannot
        // exist: `adjacent` is still NULL here.
        if allocAdj > leftmost {
          adjacent := Some(allocAdj);
        }
      }
      d := dest;
      if adjacent.Some? {
        d := leftmost - HEADER_SIZE;
        Relocate(lm, adjacent.value);
      }
    }

    /** The move of a compaction round, from the free entry at position lm to block a. */
    method Relocate(lm: nat, a: int)
      requires Valid() && lm < |freeList.blocks|
      modifies this, freeList
      ensures State() == Relocated(old(State()), lm, a)
      ensures availableMemory == old(availableMemory) && usedMemory == old(usedMemory)
    {
      ghost var st := State();
      var leftmost := freeList.blocks[lm];
      var dest := leftmost - HEADER_SIZE;
      var sizeDest := Size(hdr, leftmost);
      var sizeSrc := Size(hdr, a);
      // memmove of size_src bytes from a's header: the header byte moves
      // whenever at least one byte is copied.
      if sizeSrc > 0 {
        hdr := hdr[leftmost := Load(hdr, a)];
      }
      ghost var hdr1 := hdr;
      var endWhereNewFreeStarts := dest + sizeSrc + HEADER_SIZE;
      freeList.DeleteNode(lm);
      var found := freeList.FindNode(endWhereNewFreeStarts);
      if found.None? {
        freeList.InsertHead(endWhereNewFreeStarts);
        hdr := hdr[endWhereNewFreeStarts := Encode(sizeDest)];
        assert hdr == hdr1[endWhereNewFreeStarts := Encode(sizeDest)];
      }
    }

    /**
     * The final loop of compact_allocation: every allocated entry is set to
     * `target`, each old value is written to `before` and the new one to
     * `after` at position `count`, and `count` moves on only when the two
     * read back different.
     */
    method Relabel(before: array<int>, after: array<int>, target: int) returns (count: int)
      requires Valid() && |allocList.blocks| <= before.Length && |allocList.blocks| <= after.Length
      modifies allocList, before, after
      ensures allocList.blocks == AllAt(|old(allocList.blocks)|, target)
      ensures 0 <= count <= |old(allocList.blocks)|
      ensures forall k :: 0 <= k < count ==> before[k] != after[k] && after[k] == target
      ensures before != after ==> before[..count] == Moved(old(allocList.blocks), target)
      ensures forall k :: count < k < before.Length ==> before[k] == old(before[k])
      ensures forall k :: count < k < after.Length ==> after[k] == old(after[k])
    {
      ghost var s := allocList.blocks;
      count := 0;
      var i := 0;
      while i < |allocList.blocks|
        invariant |allocList.blocks| == |s| && 0 <= count <= i <= |s|
        invariant allocList.blocks[..i] == AllAt(i, target) && allocList.blocks[i..] == s[i..]
        invariant forall k :: 0 <= k < count ==> before[k] != after[k] && after[k] == target
        invariant before != after ==> before[..count] == Moved(s[..i], target)
        invariant forall k :: count < k < before.Length ==> before[k] == old(before[k])
        invariant forall k :: count < k < after.Length ==> after[k] == old(after[k])
      {
        assert allocList.blocks[i] == s[i] by {
          assert allocList.blocks[i..][0] == s[i..][0];
        }
        ghost var prefix := before[..count];
        before[count] := allocList.blocks[i];
        allocList.SetBlock(i, target);
        after[count] := allocList.blocks[i];
        assert s[..i + 1] == s[..i] + [s[i]];
        MovedSnoc(s[..i], s[i], target);
        if before[count] != after[count] {
          assert before[..count + 1] == prefix + [s[i]];
          count := count + 1;
        }
        assert allocList.blocks[..i + 1] == AllAt(i, target) + [target];
        assert allocList.blocks[i + 1..] == allocList.blocks[i..][1..];
        i := i + 1;
      }
      assert s[..|s|] == s;
    }

    /**
     * compact_allocation(before, after), with the loop
     * `while (is_fragmented())` cut off after `fuel` rounds (`finished` is
     * false then), and `uninitialized` standing for the value of `dest` when
     * no round moves anything.
     */
    method CompactAllocation(before: array<int>, after: array<int>, fuel: nat, uninitialized: int)
      returns (count: int, finished: bool)
      requires Valid()
      requires |allocList.blocks| <= before.Length && |allocList.blocks| <= after.Length
      modifies this, freeList, allocList, before, after
      ensures Valid()
      ensures var early := old(usedMemory) == 0 || old(availableMemory) == 0 ||
                           old(allocList.blocks) == [] || old(freeList.blocks) == [];
        early ==> count == 0 && finished && State() == old(State()) &&
                  availableMemory == old(availableMemory) && usedMemory == old(usedMemory) &&
                  before[..] == old(before[..]) && after[..] == old(after[..])
      ensures var early := old(usedMemory) == 0 || old(availableMemory) == 0 ||
                           old(allocList.blocks) == [] || old(freeList.blocks) == [];
        var first := HeapSpec.IsFragmented(old(State()));
        var rounds := CompactLoop(first.0, first.1, fuel, uninitialized);
        !early ==>
          && (finished <==> rounds.Finished?)
          && (!finished ==> count == 0 && State() == rounds.heap &&
                            before[..] == old(before[..]) && after[..] == old(after[..]))
          && (finished ==>
                var target := rounds.dest + HEADER_SIZE;
                && State() == Heap(rounds.heap.free, AllAt(|old(allocList.blocks)|, target), rounds.heap.hdr)
                && StatsCached()
                && 0 <= count <= |old(allocList.blocks)|
                && (forall k :: 0 <= k < count ==> before[k] != after[k] && after[k] == target)
                && (before != after ==> before[..count] == Moved(old(allocList.blocks), target))
                && (forall k :: count < k < before.Length ==> before[k] == old(before[k]))
                && (forall k :: count < k < after.Length ==> after[k] == old(after[k])))
    {
      if usedMemory == 0 || availableMemory == 0 || allocList.blocks == [] || freeList.blocks == [] {
        return 0, true;
      }
      ghost var alloc0 := allocList.blocks;
      var dest := uninitialized;
      var frag := IsFragmented();
      ghost var frag0, st1 := frag, State();
      var rounds: nat := 0;
      while frag && rounds < fuel
        invariant Valid() && rounds <= fuel
        invariant frag ==> freeList.blocks != []
        invariant allocList.blocks == alloc0
        invariant CompactLoop(frag, State(), fuel - rounds, dest) == CompactLoop(frag0, st1, fuel, uninitialized)
        invariant before[..] == old(before[..]) && after[..] == old(after[..])
      {
        dest := CompactRound(dest);
        frag := IsFragmented();
        rounds := rounds + 1;
      }
      if frag {
        return 0, false;
      }
      ghost var st2 := State();
      count := Relabel(before, after, dest + HEADER_SIZE);
      ghost var after2 := State();
      assert after2 == Heap(st2.free, AllAt(|alloc0|, dest + HEADER_SIZE), st2.hdr);
      RefreshStatistics();
      assert State() == after2;
      finished := true;
    }
  }

  /**
   * The inner loop of is_fragmented's pair scan: the entries after position
   * i, the last one adjacent to entry i winning.  hasAdj is 0 for none, 1
   * when that entry ends right before entry i, 2 when it starts right after.
   */
  method PartnerScan(s: seq<int>, hdr: map<int, Byte>, i: nat) returns (hasAdj: int, adjacent: nat)
    requires i < |s|
    ensures hasAdj == 0 <==> LastAdjacent(s, hdr, i, |s|).None?
    ensures hasAdj != 0 ==> LastAdjacent(s, hdr, i, |s|) == Some(adjacent)
    ensures hasAdj != 0 ==> adjacent < |s| && hasAdj == Adjacency(hdr, s[i], s[adjacent])
  {
    hasAdj, adjacent := 0, 0;
    var sizeCurrFree := Size(hdr, s[i]);
    var j := i + 1;
    while j < |s|
      invariant i + 1 <= j <= |s|
      invariant hasAdj == 0 ==> LastAdjacent(s, hdr, i, j).None?
      invariant hasAdj != 0 ==> LastAdjacent(s, hdr, i, j) == Some(adjacent)
      invariant hasAdj != 0 ==> adjacent < |s| && hasAdj == Adjacency(hdr, s[i], s[adjacent])
    {
      if s[j] == s[i] + sizeCurrFree + HEADER_SIZE {
        adjacent, hasAdj := j, 2;
      }
      var sizeNextFree := Size(hdr, s[j]);
      if s[i] == s[j] + sizeNextFree + HEADER_SIZE {
        adjacent, hasAdj := j, 1;
      }
      j := j + 1;
    }
  }

  /** The outer loop of is_fragmented's pair scan: it stops at the first entry with a partner. */
  method PairScan(s: seq<int>, hdr: map<int, Byte>) returns (hasAdj: int, current: nat, adjacent: nat)
    ensures hasAdj == 0 <==> FindPair(s, hdr, 0).None?
    ensures hasAdj != 0 ==> FindPair(s, hdr, 0) == Some((current, adjacent))
    ensures hasAdj != 0 ==> hasAdj == Adjacency(hdr, s[current], s[adjacent])
  {
    hasAdj, current, adjacent := 0, 0, 0;
    var i := 0;
    while i < |s| && hasAdj == 0
      invariant 0 <= i <= |s|
      invariant hasAdj == 0 ==> FindPair(s, hdr, 0) == FindPair(s, hdr, i)
      invariant hasAdj != 0 ==> FindPair(s, hdr, 0) == Some((current, adjacent))
      invariant hasAdj != 0 ==> current < adjacent < |s| && hasAdj == Adjacency(hdr, s[current], s[adjacent])
    {
      var found, j := PartnerScan(s, hdr, i);
      if found != 0 {
        hasAdj, current, adjacent := found, i, j;
      }
      i := i + 1;
    }
  }
}
