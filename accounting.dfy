/**
 * Byte accounting of the arena.  initialize_allocator obtains `size + 8`
 * bytes (myalloc/myalloc.c:53): one header and `size` payload bytes.  Every
 * registered block covers its header and its payload, so the intended
 * invariant of the two registries is that these add up to the same total
 * after every operation: the free and allocated blocks tile the arena.
 * The lemmas below state which operations keep the total, under the
 * condition that all sizes involved stay readable through the one-byte
 * header (0..128).
 */
module Accounting {
  import opened Wrappers
  import opened HeaderCodec
  import opened List
  import opened HeapSpec

  /** The bytes covered by the registered blocks, headers included. */
  function Footprint(st: Heap): (r: int)
    ensures r >= HEADER_SIZE * (|st.free| + |st.alloc|)
  {
    SumSizes(st.free, st.hdr) + SumSizes(st.alloc, st.hdr) + HEADER_SIZE * (|st.free| + |st.alloc|)
  }

  /** No address is registered as both free and allocated. */
  ghost predicate Disjoint(free: seq<int>, alloc: seq<int>) {
    forall k :: 0 <= k < |free| ==> free[k] !in alloc
  }

  lemma SumSizesCons(x: int, s: seq<int>, hdr: map<int, Byte>)
    ensures SumSizes([x] + s, hdr) == Size(hdr, x) + SumSizes(s, hdr)
  {
    assert ([x] + s)[1..] == s;
  }

  /** A header write at an address the list does not hold leaves its sum alone. */
  lemma SumSizesWriteElsewhere(s: seq<int>, hdr: map<int, Byte>, x: int, b: Byte)
    requires x !in s
    ensures SumSizes(s, hdr[x := b]) == SumSizes(s, hdr)
  {
    SumSizesFrame(s, hdr, hdr[x := b]);
  }

  /** Right after initialize_allocator the one free block covers the whole chunk. */
  lemma InitialFootprint(size: int)
    requires 0 <= size <= 128
    ensures Footprint(InitialHeap(size)) == size + HEADER_SIZE
  {
    var st := InitialHeap(size);
    SumSizesCons(ARENA, [], st.hdr);
  }

  /**
   * The bookkeeping of a split on the lists themselves: the free entry at
   * position i moves n + 8 bytes on, its block's first n bytes join the
   * allocated list, and the two headers are written.
   */
  lemma SplitSums(free: seq<int>, alloc: seq<int>, hdr: map<int, Byte>, i: nat, n: int)
    requires i < |free| && Distinct(free) && n > 0
    requires Size(hdr, free[i]) - n > HEADER_SIZE
    requires free[i] !in alloc && free[i] + n + HEADER_SIZE !in free && free[i] + n + HEADER_SIZE !in alloc
    ensures var p := free[i];
      var q := p + n + HEADER_SIZE;
      var hdr' := hdr[p := Encode(n)][q := Encode(Size(hdr, p) - n - HEADER_SIZE)];
      Footprint(Heap(free[i := q], [p] + alloc, hdr')) == Footprint(Heap(free, alloc, hdr))
  {
    var p := free[i];
    var size := Size(hdr, p);
    var q := p + n + HEADER_SIZE;
    var hdr' := hdr[p := Encode(n)][q := Encode(size - n - HEADER_SIZE)];
    SplitFreeSum(free, hdr, i, q, hdr');
    DecodeEncode(n);
    DecodeEncode(size - n - HEADER_SIZE);
    SumSizesCons(p, alloc, hdr');
    SumSizesFrame(alloc, hdr, hdr');
  }

  /** Replacing the free entry at position i by q, with headers rewritten only at the two. */
  lemma SplitFreeSum(free: seq<int>, hdr: map<int, Byte>, i: nat, q: int, hdr': map<int, Byte>)
    requires i < |free| && Distinct(free) && q !in free
    requires forall x :: x != free[i] && x != q ==> Load(hdr', x) == Load(hdr, x)
    ensures SumSizes(free[i := q], hdr') == SumSizes(free, hdr) - Size(hdr, free[i]) + Size(hdr', q)
  {
    var rest := Remove(free, i);
    RemoveMembers(free, i, free[i]);
    SumSizesRemove(free, i, hdr);
    assert Remove(free[i := q], i) == rest;
    SumSizesRemove(free[i := q], i, hdr');
    SumSizesFrame(rest, hdr, hdr');
  }

  /**
   * A split keeps the total: the n bytes handed out, the new header and
   * the remainder make up the block that was split.  The remainder's
   * address must not be registered already, as it lies inside that block.
   */
  lemma AllocateSplitConserves(alg: Algorithm, st: Heap, n: int)
    requires n > 0 && Distinct(st.free) && Disjoint(st.free, st.alloc)
    requires Allocate(alg, st, n).1.Some?
    requires var p := Allocate(alg, st, n).1.value;
      Size(st.hdr, p) - n > HEADER_SIZE && p + n + HEADER_SIZE !in st.free && p + n + HEADER_SIZE !in st.alloc
    ensures Footprint(Allocate(alg, st, n).0) == Footprint(st)
  {
    var c := Choose(alg, st.free, st.hdr, n).value;
    var p := st.free[c];
    AllocatePickedSplits(alg, st, n, c);
    var i := IndexOf(st.free, p).value;
    assert p !in st.alloc;
    SplitSums(st.free, st.alloc, st.hdr, i, n);
  }

  /** Handing out a block whole moves its size and header from one list to the other. */
  lemma AllocateWholeConserves(alg: Algorithm, st: Heap, n: int)
    requires n > 0 && Disjoint(st.free, st.alloc)
    requires Allocate(alg, st, n).1.Some?
    requires var p := Allocate(alg, st, n).1.value; Size(st.hdr, p) - n <= HEADER_SIZE
    ensures Footprint(Allocate(alg, st, n).0) == Footprint(st)
  {
    var c := Choose(alg, st.free, st.hdr, n).value;
    var p := st.free[c];
    AllocatePickedWhole(alg, st, n, c);
    var i := IndexOf(st.free, p).value;
    SumSizesRemove(st.free, i, st.hdr);
    assert p !in st.alloc;
    SumSizesCons(p, st.alloc, st.hdr);
  }

  /** Releasing a block with no free right neighbour moves it between the lists. */
  lemma DeallocateNoNeighbourConserves(st: Heap, p: int)
    requires p in st.alloc && st.free != [] && p !in st.free
    requires RightOf(st.hdr, p) !in st.free
    ensures Footprint(Deallocate(st, p)) == Footprint(st)
  {
    DeallocateNoNeighbour(st, p);
    var ip := IndexOf(st.alloc, p).value;
    SumSizesRemove(st.alloc, ip, st.hdr);
    SumSizesCons(p, st.free, st.hdr);
  }

  /**
   * The bookkeeping of a merge on the lists themselves: the free entry at
   * position g leaves the list and the one at position k takes over its
   * bytes and its header.
   */
  lemma AbsorbSums(free: seq<int>, alloc: seq<int>, hdr: map<int, Byte>, k: nat, g: nat)
    requires k < |free| && g < |free| && k != g && Distinct(free) && free[k] !in alloc
    requires Size(hdr, free[k]) + HEADER_SIZE + Size(hdr, free[g]) <= 128
    ensures var total := Size(hdr, free[k]) + HEADER_SIZE + Size(hdr, free[g]);
      Footprint(Heap(Remove(free, g), alloc, hdr[free[k] := Encode(total)])) == Footprint(Heap(free, alloc, hdr))
  {
    var a := free[k];
    var total := Size(hdr, a) + HEADER_SIZE + Size(hdr, free[g]);
    var hdr' := hdr[a := Encode(total)];
    var r1 := Remove(free, g);
    var k1 := if k < g then k else k - 1;
    assert r1[k1] == a;
    RemoveDistinct(free, g);
    RemoveMembers(r1, k1, a);
    SumSizesRemove(free, g, hdr);
    SumSizesRemove(r1, k1, hdr);
    SumSizesRemove(r1, k1, hdr');
    SumSizesWriteElsewhere(Remove(r1, k1), hdr, a, Encode(total));
    DecodeEncode(total);
    SumSizesWriteElsewhere(alloc, hdr, a, Encode(total));
  }

  /**
   * The merge of is_fragmented keeps the total: the surviving entry covers
   * the bytes and the header of the one that leaves the list.
   */
  lemma MergeConserves(st: Heap, i: nat, j: nat)
    requires i < j < |st.free| && Distinct(st.free) && Disjoint(st.free, st.alloc)
    requires Size(st.hdr, st.free[i]) + HEADER_SIZE + Size(st.hdr, st.free[j]) <= 128
    ensures Footprint(Merge(st, i, j)) == Footprint(st)
  {
    var a, b := st.free[i], st.free[j];
    if Adjacency(st.hdr, a, b) == 2 {
      AbsorbSums(st.free, st.alloc, st.hdr, i, j);
    } else {
      assert Size(st.hdr, b) + HEADER_SIZE + Size(st.hdr, a) == Size(st.hdr, a) + HEADER_SIZE + Size(st.hdr, b);
      AbsorbSums(st.free, st.alloc, st.hdr, j, i);
    }
  }
}
