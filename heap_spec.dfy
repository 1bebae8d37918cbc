/**
 * What each public operation of myalloc/myalloc.c does to the allocator's
 * state, as functions on a value: the free list, the allocated list and the
 * header bytes of the arena.  The class in myalloc.dfy is proved to follow
 * these functions; the lemmas here state what the source promises of them.
 *
 * Addresses are offsets from the start of the chunk obtained from malloc:
 * the first payload (`myalloc.memory`) is at HEADER_SIZE and the header of
 * the block with payload `p` occupies the bytes p - 8 .. p - 1.
 */
module HeapSpec {
  import opened Wrappers
  import opened HeaderCodec
  import opened List

  /** enum allocation_algorithm (myalloc/myalloc.h:13). */
  datatype Algorithm = FirstFit | BestFit | WorstFit

  /** The registries and the arena headers. */
  datatype Heap = Heap(free: seq<int>, alloc: seq<int>, hdr: map<int, Byte>)

  /** Payload address of the first block of the arena (`myalloc.memory`). */
  const ARENA: int := HEADER_SIZE

  // ---------------------------------------------------------------------
  // Statistics (available_memory, used_memory)
  // ---------------------------------------------------------------------

  /** The header sizes of a list, added up (read through `abs`). */
  function SumSizes(s: seq<int>, hdr: map<int, Byte>): (r: int)
    ensures 0 <= r <= 128 * |s|
  {
    if s == [] then 0 else Size(hdr, s[0]) + SumSizes(s[1..], hdr)
  }

  lemma {:induction false} SumSizesAppend(s: seq<int>, t: seq<int>, hdr: map<int, Byte>)
    ensures SumSizes(s + t, hdr) == SumSizes(s, hdr) + SumSizes(t, hdr)
  {
    if s == [] {
      assert s + t == t;
    } else {
      assert (s + t)[1..] == s[1..] + t;
      SumSizesAppend(s[1..], t, hdr);
    }
  }

  /** Header writes at addresses the list does not hold leave its sum alone. */
  lemma {:induction false} SumSizesFrame(s: seq<int>, hdr: map<int, Byte>, hdr': map<int, Byte>)
    requires forall k :: 0 <= k < |s| ==> Load(hdr, s[k]) == Load(hdr', s[k])
    ensures SumSizes(s, hdr) == SumSizes(s, hdr')
  {
    if s != [] {
      SumSizesFrame(s[1..], hdr, hdr');
    }
  }

  lemma SumSizesRemove(s: seq<int>, i: nat, hdr: map<int, Byte>)
    requires i < |s|
    ensures SumSizes(Remove(s, i), hdr) == SumSizes(s, hdr) - Size(hdr, s[i])
  {
    assert s == s[..i] + [s[i]] + s[i + 1..];
    SumSizesAppend(s[..i] + [s[i]], s[i + 1..], hdr);
    SumSizesAppend(s[..i], [s[i]], hdr);
    SumSizesAppend(s[..i], s[i + 1..], hdr);
  }

  lemma SumSizesReplace(s: seq<int>, i: nat, x: int, hdr: map<int, Byte>)
    requires i < |s|
    ensures SumSizes(s[i := x], hdr) == SumSizes(s, hdr) - Size(hdr, s[i]) + Size(hdr, x)
  {
    assert s == s[..i] + [s[i]] + s[i + 1..];
    assert s[i := x] == s[..i] + [x] + s[i + 1..];
    SumSizesAppend(s[..i] + [s[i]], s[i + 1..], hdr);
    SumSizesAppend(s[..i], [s[i]], hdr);
    SumSizesAppend(s[..i] + [x], s[i + 1..], hdr);
    SumSizesAppend(s[..i], [x], hdr);
  }

  // ---------------------------------------------------------------------
  // initialize_allocator
  // ---------------------------------------------------------------------

  /** `((_size + 63) / 64) * 64`: the least multiple of 64 that is at least n. */
  function RoundUp64(n: int): (r: int)
    requires n > 0
    ensures r % 64 == 0 && n <= r < n + 64
  {
    ((n + 63) / 64) * 64
  }

  /** The state right after initialize_allocator for a rounded size `size`. */
  function InitialHeap(size: int): (st: Heap)
    ensures st.free == [ARENA] && st.alloc == []
    ensures 0 <= size <= 128 ==> Size(st.hdr, ARENA) == size
  {
    Heap([ARENA], [], map[ARENA := Encode(size)])
  }

  // ---------------------------------------------------------------------
  // Placement strategies (allocate, the switch on myalloc.aalgorithm)
  // ---------------------------------------------------------------------

  /** First fit, scanning from position `i`: the first entry whose size is at least n. */
  function FirstFitFrom(s: seq<int>, hdr: map<int, Byte>, n: int, i: nat): (r: Option<nat>)
    requires i <= |s|
    ensures r.None? <==> forall k :: i <= k < |s| ==> Size(hdr, s[k]) < n
    ensures r.Some? ==> i <= r.value < |s| && Size(hdr, s[r.value]) >= n
    ensures r.Some? ==> forall k :: i <= k < r.value ==> Size(hdr, s[k]) < n
    decreases |s| - i
  {
    if i == |s| then None
    else if Size(hdr, s[i]) >= n then Some(i)
    else FirstFitFrom(s, hdr, n, i + 1)
  }

  /**
   * One step of the best-fit scan over position i.  The current candidate's
   * header is read without `abs` (myalloc/myalloc.c:118).
   */
  function BestFitStep(s: seq<int>, hdr: map<int, Byte>, n: int, best: Option<nat>, i: nat): Option<nat>
    requires i < |s| && (best.Some? ==> best.value < |s|)
  {
    if Size(hdr, s[i]) >= n then
      if best.None? then Some(i)
      else if Size(hdr, s[i]) < Raw(hdr, s[best.value]) then Some(i)
      else best
    else best
  }

  /** Best fit after scanning the first k entries. */
  function BestFitUpTo(s: seq<int>, hdr: map<int, Byte>, n: int, k: nat): (r: Option<nat>)
    requires k <= |s|
    ensures r.None? <==> forall j :: 0 <= j < k ==> Size(hdr, s[j]) < n
    ensures r.Some? ==> r.value < k && Size(hdr, s[r.value]) >= n
  {
    if k == 0 then None else BestFitStep(s, hdr, n, BestFitUpTo(s, hdr, n, k - 1), k - 1)
  }

  /** One step of the worst-fit scan; the candidate is read without `abs` (:133). */
  function WorstFitStep(s: seq<int>, hdr: map<int, Byte>, n: int, worst: Option<nat>, i: nat): Option<nat>
    requires i < |s| && (worst.Some? ==> worst.value < |s|)
  {
    if Size(hdr, s[i]) >= n then
      if worst.None? then Some(i)
      else if Size(hdr, s[i]) > Raw(hdr, s[worst.value]) then Some(i)
      else worst
    else worst
  }

  /** Worst fit after scanning the first k entries. */
  function WorstFitUpTo(s: seq<int>, hdr: map<int, Byte>, n: int, k: nat): (r: Option<nat>)
    requires k <= |s|
    ensures r.None? <==> forall j :: 0 <= j < k ==> Size(hdr, s[j]) < n
    ensures r.Some? ==> r.value < k && Size(hdr, s[r.value]) >= n
  {
    if k == 0 then None else WorstFitStep(s, hdr, n, WorstFitUpTo(s, hdr, n, k - 1), k - 1)
  }

  /** The position in the free list that the configured strategy picks for n bytes. */
  function Choose(alg: Algorithm, s: seq<int>, hdr: map<int, Byte>, n: int): (r: Option<nat>)
    ensures r.None? <==> forall k :: 0 <= k < |s| ==> Size(hdr, s[k]) < n
    ensures r.Some? ==> r.value < |s| && Size(hdr, s[r.value]) >= n
  {
    match alg
    case FirstFit => FirstFitFrom(s, hdr, n, 0)
    case BestFit => BestFitUpTo(s, hdr, n, |s|)
    case WorstFit => WorstFitUpTo(s, hdr, n, |s|)
  }

  /** Every header of the list holds a size below 128, so raw and `abs` reads agree. */
  ghost predicate Exact(s: seq<int>, hdr: map<int, Byte>) {
    forall k :: 0 <= k < |s| ==> Load(hdr, s[k]) < 128
  }

  /**
   * Best fit picks an entry of least size among those of at least n bytes,
   * and the earliest of them: every earlier qualifying entry is strictly larger.
   */
  lemma {:induction false} BestFitIsBest(s: seq<int>, hdr: map<int, Byte>, n: int, k: nat)
    requires k <= |s| && Exact(s, hdr)
    ensures var r := BestFitUpTo(s, hdr, n, k);
      r.Some? ==>
        (forall j :: 0 <= j < k && Size(hdr, s[j]) >= n ==> Size(hdr, s[r.value]) <= Size(hdr, s[j])) &&
        (forall j :: 0 <= j < r.value && Size(hdr, s[j]) >= n ==> Size(hdr, s[r.value]) < Size(hdr, s[j]))
  {
    if k > 0 {
      BestFitIsBest(s, hdr, n, k - 1);
      var prev := BestFitUpTo(s, hdr, n, k - 1);
      if prev.Some? {
        RawIsSize(hdr, s[prev.value]);
      }
    }
  }

  /**
   * Worst fit picks an entry of greatest size among those of at least n
   * bytes, and the earliest of them.
   */
  lemma {:induction false} WorstFitIsWorst(s: seq<int>, hdr: map<int, Byte>, n: int, k: nat)
    requires k <= |s| && Exact(s, hdr)
    ensures var r := WorstFitUpTo(s, hdr, n, k);
      r.Some? ==>
        (forall j :: 0 <= j < k && Size(hdr, s[j]) >= n ==> Size(hdr, s[j]) <= Size(hdr, s[r.value])) &&
        (forall j :: 0 <= j < r.value && Size(hdr, s[j]) >= n ==> Size(hdr, s[j]) < Size(hdr, s[r.value]))
  {
    if k > 0 {
      WorstFitIsWorst(s, hdr, n, k - 1);
      var prev := WorstFitUpTo(s, hdr, n, k - 1);
      if prev.Some? {
        RawIsSize(hdr, s[prev.value]);
      }
    }
  }

  // ---------------------------------------------------------------------
  // allocate
  // ---------------------------------------------------------------------

  /**
   * allocate(n): the new state and the returned address (None for NULL).
   * A chosen entry with more than HEADER_SIZE bytes to spare is split: the
   * allocated block keeps the address with header n and the free-list node
   * moves to the remainder.  Otherwise the node leaves the free list and the
   * header keeps the whole size.
   */
  function Allocate(alg: Algorithm, st: Heap, n: int): (r: (Heap, Option<int>))
    requires n > 0
    ensures r.1.None? <==> forall k :: 0 <= k < |st.free| ==> Size(st.hdr, st.free[k]) < n
    ensures r.1.None? ==> r.0 == st
    ensures r.1.Some? ==> r.1.value in st.free && Size(st.hdr, r.1.value) >= n
    ensures r.1.Some? ==> r.1.value in r.0.alloc
    ensures r.1.Some? && r.1.value !in st.alloc ==> r.0.alloc == [r.1.value] + st.alloc
  {
    if st.free == [] then (st, None)
    else match Choose(alg, st.free, st.hdr, n)
      case None => (st, None)
      case Some(c) =>
        var p := st.free[c];
        var alloc := InsertedAtHead(st.alloc, p);
        var size := Size(st.hdr, p);
        var i := IndexOf(st.free, p).value;
        if size - n > HEADER_SIZE then
          var q := p + n + HEADER_SIZE;
          var hdr := st.hdr[p := Encode(n)][q := Encode(size - n - HEADER_SIZE)];
          (Heap(st.free[i := q], alloc, hdr), Some(p))
        else
          (Heap(Remove(st.free, i), alloc, st.hdr), Some(p))
  }

  /**
   * A split leaves header n at the address and moves the free-list node to
   * the remainder n + 8 bytes further on; the two sizes and the header
   * between them add up to the size of the block that was split.
   */
  lemma AllocateSplit(alg: Algorithm, st: Heap, n: int)
    requires n > 0
    requires Allocate(alg, st, n).1.Some?
    requires var p := Allocate(alg, st, n).1.value; Size(st.hdr, p) - n > HEADER_SIZE
    ensures var (st', r) := Allocate(alg, st, n);
      var p, q := r.value, r.value + n + HEADER_SIZE;
      && st'.free == st.free[IndexOf(st.free, p).value := q]
      && Size(st'.hdr, p) == n
      && Size(st'.hdr, p) + HEADER_SIZE + Size(st'.hdr, q) == Size(st.hdr, p)
  {
    var c := Choose(alg, st.free, st.hdr, n).value;
    var p := st.free[c];
    var size := Size(st.hdr, p);
    var q := p + n + HEADER_SIZE;
    var hdr := st.hdr[p := Encode(n)][q := Encode(size - n - HEADER_SIZE)];
    assert Allocate(alg, st, n).0.hdr == hdr;
    DecodeEncode(n);
    DecodeEncode(size - n - HEADER_SIZE);
    assert Load(hdr, p) == Encode(n);
    assert Load(hdr, q) == Encode(size - n - HEADER_SIZE);
  }

  /** Allocate once the strategy has picked position c and the block has room for a split. */
  lemma AllocatePickedSplits(alg: Algorithm, st: Heap, n: int, c: nat)
    requires n > 0 && st.free != [] && Choose(alg, st.free, st.hdr, n) == Some(c)
    requires Size(st.hdr, st.free[c]) - n > HEADER_SIZE
    ensures var p := st.free[c];
      var q := p + n + HEADER_SIZE;
      Allocate(alg, st, n) ==
        (Heap(st.free[IndexOf(st.free, p).value := q], InsertedAtHead(st.alloc, p),
              st.hdr[p := Encode(n)][q := Encode(Size(st.hdr, p) - n - HEADER_SIZE)]), Some(p))
  {
  }

  /** Allocate once the strategy has picked position c and the block is handed out whole. */
  lemma AllocatePickedWhole(alg: Algorithm, st: Heap, n: int, c: nat)
    requires n > 0 && st.free != [] && Choose(alg, st.free, st.hdr, n) == Some(c)
    requires Size(st.hdr, st.free[c]) - n <= HEADER_SIZE
    ensures var p := st.free[c];
      Allocate(alg, st, n) == (Heap(Remove(st.free, IndexOf(st.free, p).value), InsertedAtHead(st.alloc, p), st.hdr), Some(p))
  {
  }

  /** Without room for a split the node leaves the free list and no header changes. */
  lemma AllocateConsume(alg: Algorithm, st: Heap, n: int)
    requires n > 0
    requires Allocate(alg, st, n).1.Some?
    requires var p := Allocate(alg, st, n).1.value; Size(st.hdr, p) - n <= HEADER_SIZE
    ensures var (st', r) := Allocate(alg, st, n);
      && st'.free == Remove(st.free, IndexOf(st.free, r.value).value)
      && st'.hdr == st.hdr
  {
  }

  // ---------------------------------------------------------------------
  // deallocate
  // ---------------------------------------------------------------------

  /**
   * deallocate(p), p an allocated block.  With an empty free list nothing
   * happens.  If the free list holds the block right after p, p absorbs it
   * and becomes the head of the free list, and p stays in the allocated
   * list.  Otherwise p moves from the allocated list to the head of the free
   * list.  The left-neighbour loop that follows in the source never runs.
   */
  function Deallocate(st: Heap, p: int): (st': Heap)
    requires p in st.alloc
    ensures st.free == [] ==> st' == st
  {
    var size := Size(st.hdr, p);
    if st.free == [] then st
    else match IndexOf(st.free, p + size + HEADER_SIZE)
      case Some(i) =>
        var hdr := st.hdr[p := Encode(size + HEADER_SIZE + Size(st.hdr, st.free[i]))];
        Heap(InsertedAtHead(Remove(st.free, i), p), st.alloc, hdr)
      case None =>
        Heap(InsertedAtHead(st.free, p), Remove(st.alloc, IndexOf(st.alloc, p).value), st.hdr)
  }

  /** Deallocate when the scan finds the free block that starts right after p. */
  lemma DeallocateMergesRight(st: Heap, p: int, i: nat)
    requires p in st.alloc && i < |st.free|
    requires IndexOf(st.free, p + Size(st.hdr, p) + HEADER_SIZE) == Some(i)
    ensures Deallocate(st, p) ==
      Heap(InsertedAtHead(Remove(st.free, i), p), st.alloc,
           st.hdr[p := Encode(Size(st.hdr, p) + HEADER_SIZE + Size(st.hdr, st.free[i]))])
  {
  }

  /** Deallocate when the free list is not empty and no free block starts right after p. */
  lemma DeallocateReleases(st: Heap, p: int)
    requires p in st.alloc && st.free != []
    requires IndexOf(st.free, p + Size(st.hdr, p) + HEADER_SIZE).None?
    ensures Deallocate(st, p) == Heap(InsertedAtHead(st.free, p), Remove(st.alloc, IndexOf(st.alloc, p).value), st.hdr)
  {
  }

  /** The address right after the extent of block p: where its right neighbour starts. */
  function RightOf(hdr: map<int, Byte>, p: int): int {
    p + Size(hdr, p) + HEADER_SIZE
  }

  /**
   * When a free block starts right after p, deallocate drops that neighbour
   * from the free list, puts p at its head, and leaves the allocated list as
   * it was.
   */
  lemma DeallocateMergeRight(st: Heap, p: int)
    requires p in st.alloc && Distinct(st.free) && p !in st.free
    requires RightOf(st.hdr, p) in st.free
    ensures var st' := Deallocate(st, p);
      && st'.free == [p] + Remove(st.free, IndexOf(st.free, RightOf(st.hdr, p)).value)
      && RightOf(st.hdr, p) !in st'.free
      && st'.alloc == st.alloc
  {
    var q := RightOf(st.hdr, p);
    var i := IndexOf(st.free, q).value;
    DeallocateMergesRight(st, p, i);
    RemoveMembers(st.free, i, q);
    RemoveMembers(st.free, i, p);
  }

  /**
   * ... and gives p the two sizes plus the header between them, read back
   * exactly while that fits a signed char.
   */
  lemma DeallocateMergeRightSize(st: Heap, p: int)
    requires p in st.alloc && RightOf(st.hdr, p) in st.free
    requires Size(st.hdr, p) + HEADER_SIZE + Size(st.hdr, RightOf(st.hdr, p)) <= 128
    ensures Size(Deallocate(st, p).hdr, p) == Size(st.hdr, p) + HEADER_SIZE + Size(st.hdr, RightOf(st.hdr, p))
  {
    var q := RightOf(st.hdr, p);
    var i := IndexOf(st.free, q).value;
    DeallocateMergesRight(st, p, i);
    DecodeEncode(Size(st.hdr, p) + HEADER_SIZE + Size(st.hdr, q));
  }

  /**
   * With no free block right after p and a non-empty free list, deallocate
   * moves p from the allocated list to the head of the free list and changes
   * no header.
   */
  lemma DeallocateNoNeighbour(st: Heap, p: int)
    requires p in st.alloc && st.free != [] && p !in st.free
    requires RightOf(st.hdr, p) !in st.free
    ensures var st' := Deallocate(st, p);
      && st'.free == [p] + st.free
      && st'.hdr == st.hdr
      && st'.alloc == Remove(st.alloc, IndexOf(st.alloc, p).value)
  {
    DeallocateReleases(st, p);
  }

  // ---------------------------------------------------------------------
  // is_fragmented
  // ---------------------------------------------------------------------

  /**
   * How the pair scan of is_fragmented classifies b against a: 1 when b
   * ends right where a's header begins, else 2 when b begins right where a
   * ends, else 0.  The left test is made second and wins.
   */
  function Adjacency(hdr: map<int, Byte>, a: int, b: int): int {
    if a == RightOf(hdr, b) then 1
    else if b == RightOf(hdr, a) then 2
    else 0
  }

  /** The last position j in (i, k) whose entry is adjacent to entry i. */
  function LastAdjacent(s: seq<int>, hdr: map<int, Byte>, i: nat, k: nat): (r: Option<nat>)
    requires i < k <= |s|
    ensures r.None? <==> forall j :: i < j < k ==> Adjacency(hdr, s[i], s[j]) == 0
    ensures r.Some? ==> i < r.value < k && Adjacency(hdr, s[i], s[r.value]) != 0
    ensures r.Some? ==> forall j :: r.value < j < k ==> Adjacency(hdr, s[i], s[j]) == 0
    decreases k
  {
    if k == i + 1 then None
    else if Adjacency(hdr, s[i], s[k - 1]) != 0 then Some(k - 1)
    else LastAdjacent(s, hdr, i, k - 1)
  }

  /** The outer scan: the first position from `from` on that has an adjacent partner. */
  function FindPair(s: seq<int>, hdr: map<int, Byte>, from: nat): (r: Option<(nat, nat)>)
    requires from <= |s|
    ensures r.Some? ==> from <= r.value.0 < r.value.1 < |s| && LastAdjacent(s, hdr, r.value.0, |s|) == Some(r.value.1)
    decreases |s| - from
  {
    if from == |s| then None
    else match LastAdjacent(s, hdr, from, |s|)
      case Some(j) => Some((from, j))
      case None => FindPair(s, hdr, from + 1)
  }

  /**
   * The scan finds nothing exactly when no two entries from `from` on are
   * adjacent, and what it finds is the first entry that has a partner.
   */
  lemma {:induction false} FindPairFirst(s: seq<int>, hdr: map<int, Byte>, from: nat)
    requires from <= |s|
    ensures var r := FindPair(s, hdr, from);
      && (r.None? <==> forall i, j :: from <= i < j < |s| ==> Adjacency(hdr, s[i], s[j]) == 0)
      && (r.Some? ==> forall i, j :: from <= i < r.value.0 && i < j < |s| ==> Adjacency(hdr, s[i], s[j]) == 0)
    decreases |s| - from
  {
    if from < |s| {
      FindPairFirst(s, hdr, from + 1);
    }
  }

  /** Merging the free entries at positions i and j found adjacent. */
  function Merge(st: Heap, i: nat, j: nat): (st': Heap)
    requires i < j < |st.free|
    ensures |st'.free| == |st.free| - 1 && st'.alloc == st.alloc
  {
    var a, b := st.free[i], st.free[j];
    if Adjacency(st.hdr, a, b) == 2 then
      Heap(Remove(st.free, j), st.alloc, st.hdr[a := Encode(Size(st.hdr, a) + HEADER_SIZE + Size(st.hdr, b))])
    else
      Heap(Remove(st.free, i), st.alloc, st.hdr[b := Encode(Size(st.hdr, b) + HEADER_SIZE + Size(st.hdr, a))])
  }

  /** Some allocated address lies above x. */
  predicate AnyAbove(s: seq<int>, x: int) {
    exists k :: 0 <= k < |s| && x < s[k]
  }

  /** is_fragmented: the answer and the state after its merging side effect. */
  function IsFragmented(st: Heap): (r: (bool, Heap))
    ensures r.1.alloc == st.alloc
    ensures r.0 ==> r.1.free != []
    ensures |st.free| == 0 ==> !r.0 && r.1 == st
    ensures |st.free| == 1 ==> r.1 == st && (r.0 <==> AnyAbove(st.alloc, st.free[0]))
    ensures |st.free| > 1 ==> r.0
    ensures |st.free| > 1 ==> |r.1.free| == |st.free| - 1 || r.1 == st
  {
    if |st.free| == 0 then (false, st)
    else if |st.free| > 1 then
      match FindPair(st.free, st.hdr, 0)
        case None => (true, st)
        case Some((i, j)) => (true, Merge(st, i, j))
    else (AnyAbove(st.alloc, st.free[0]), st)
  }

  /**
   * Merging an adjacent pair keeps the lower block, drops the upper one, and
   * gives the lower block the two sizes plus the header between them.
   */
  lemma MergeJoins(st: Heap, i: nat, j: nat)
    requires i < j < |st.free| && Distinct(st.free)
    requires Adjacency(st.hdr, st.free[i], st.free[j]) != 0
    ensures var a, b := st.free[i], st.free[j];
      var (keep, gone) := if Adjacency(st.hdr, a, b) == 2 then (a, b) else (b, a);
      var st' := Merge(st, i, j);
      && keep in st'.free && gone !in st'.free
      && (Size(st.hdr, a) + HEADER_SIZE + Size(st.hdr, b) <= 128 ==>
            Size(st'.hdr, keep) == Size(st.hdr, a) + HEADER_SIZE + Size(st.hdr, b))
  {
    var a, b := st.free[i], st.free[j];
    var total := Size(st.hdr, a) + HEADER_SIZE + Size(st.hdr, b);
    if Adjacency(st.hdr, a, b) == 2 {
      RemoveMembers(st.free, j, a);
      RemoveMembers(st.free, j, b);
      if total <= 128 {
        DecodeEncode(total);
      }
    } else {
      RemoveMembers(st.free, i, a);
      RemoveMembers(st.free, i, b);
      if total <= 128 {
        DecodeEncode(total);
      }
    }
  }

  /** With more than one free entry and an adjacent pair found, is_fragmented merges that pair. */
  lemma IsFragmentedFindsPair(st: Heap, i: nat, j: nat)
    requires |st.free| > 1 && FindPair(st.free, st.hdr, 0) == Some((i, j))
    ensures IsFragmented(st) == (true, Merge(st, i, j))
  {
  }

  // ---------------------------------------------------------------------
  // compact_allocation
  // ---------------------------------------------------------------------

  /**
   * The relocation candidate: only the head of the allocated list is looked
   * at, and it qualifies when it lies above the leftmost free block.
   */
  function HeadCandidate(alloc: seq<int>, leftmost: int): (r: Option<int>)
    ensures r.Some? ==> r.value in alloc && r.value > leftmost
    ensures r.None? <==> alloc == [] || alloc[0] <= leftmost
    ensures r.Some? ==> r.value == alloc[0]
  {
    if alloc != [] && alloc[0] > leftmost then Some(alloc[0]) else None
  }

  /**
   * The move of one compaction round, from the free entry at position lm
   * to the allocated block a: a's header byte is copied over the free
   * block's header, that free entry is dropped, and a free entry with the
   * old free size is added at (free block's header) + size_src + 8 unless
   * one exists.  The allocated list is not touched.
   */
  function Relocated(st: Heap, lm: nat, a: int): (r: Heap)
    requires lm < |st.free|
    ensures r.alloc == st.alloc
  {
    var leftmost := st.free[lm];
    var sizeDest := Size(st.hdr, leftmost);
    var sizeSrc := Size(st.hdr, a);
    var hdr := if sizeSrc > 0 then st.hdr[leftmost := Load(st.hdr, a)] else st.hdr;
    var e := leftmost - HEADER_SIZE + sizeSrc + HEADER_SIZE;
    var free := Remove(st.free, lm);
    if e in free then Heap(free, st.alloc, hdr)
    else Heap([e] + free, st.alloc, hdr[e := Encode(sizeDest)])
  }

  /**
   * One round of the compaction loop after is_fragmented answered true,
   * with the header address most recently relocated to, `dest`, returned
   * unchanged when nothing moves.
   */
  function CompactStep(st: Heap, dest: int): (r: (Heap, int))
    requires st.free != []
    ensures r.0.alloc == st.alloc
  {
    var lm := FirstMinIndex(st.free, 0);
    var leftmost := st.free[lm];
    match HeadCandidate(st.alloc, leftmost)
      case None => (st, dest)
      case Some(a) => (Relocated(st, lm, a), leftmost - HEADER_SIZE)
  }

  /**
   * What a relocation does to the free list: the leftmost entry is gone
   * (unless the new entry coincides with it), the entry size_src bytes
   * above it is present, and every other free entry stays.
   */
  lemma RelocatedFree(st: Heap, lm: nat, a: int)
    requires lm < |st.free| && Distinct(st.free)
    ensures var L, r := st.free[lm], Relocated(st, lm, a);
      var e := L + Size(st.hdr, a);
      && e in r.free
      && (L in r.free <==> L == e)
      && (forall x :: x in st.free && x != L ==> x in r.free)
      && (forall x :: x in r.free ==> x == e || x in st.free)
  {
    var L := st.free[lm];
    var rest := Remove(st.free, lm);
    RemoveMembers(st.free, lm, L);
    forall x | x in st.free && x != L ensures x in rest {
      RemoveMembers(st.free, lm, x);
    }
    forall x | x in rest ensures x in st.free {
      RemoveMembers(st.free, lm, x);
    }
  }

  /**
   * What a relocation does to the headers: the moved block's header byte
   * lands on the leftmost free block when at least one byte is copied, the
   * new free entry gets the old size of the leftmost free block when it is
   * added, an entry already listed at that address keeps its header, and
   * no other header changes.
   */
  lemma RelocatedHeaders(st: Heap, lm: nat, a: int)
    requires lm < |st.free|
    ensures var L, r := st.free[lm], Relocated(st, lm, a);
      var e := L + Size(st.hdr, a);
      && (e !in Remove(st.free, lm) ==> Load(r.hdr, e) == Encode(Size(st.hdr, L)))
      && (e in Remove(st.free, lm) ==> Load(r.hdr, e) == Load(st.hdr, e))
      && (Size(st.hdr, a) > 0 ==> Load(r.hdr, L) == Load(st.hdr, a))
      && (forall x :: x != L && x != e ==> Load(r.hdr, x) == Load(st.hdr, x))
  {
  }

  /**
   * A compaction round works on the lowest free address.  It changes
   * nothing and keeps `dest` when the head of the allocated list does not
   * lie above it; otherwise it returns that block's header address and
   * copies the head's header byte there, and the free entry size_src bytes
   * above it is listed.
   */
  lemma CompactStepEffect(st: Heap, dest: int)
    requires st.free != [] && Distinct(st.free)
    ensures var L := st.free[FirstMinIndex(st.free, 0)];
      var (r, d) := CompactStep(st, dest);
      && (forall k :: 0 <= k < |st.free| ==> L <= st.free[k])
      && (st.alloc == [] || st.alloc[0] <= L ==> r == st && d == dest)
      && (st.alloc != [] && st.alloc[0] > L ==>
            && d == L - HEADER_SIZE
            && L + Size(st.hdr, st.alloc[0]) in r.free
            && (Size(st.hdr, st.alloc[0]) > 0 ==> Load(r.hdr, L) == Load(st.hdr, st.alloc[0]) && L !in r.free))
  {
    var lm := FirstMinIndex(st.free, 0);
    if st.alloc != [] && st.alloc[0] > st.free[lm] {
      RelocatedFree(st, lm, st.alloc[0]);
      RelocatedHeaders(st, lm, st.alloc[0]);
    }
  }

  /** At most one free block, and no allocated block above it: what is_fragmented answers false on. */
  predicate Compacted(h: Heap) {
    h.free == [] || (|h.free| == 1 && !AnyAbove(h.alloc, h.free[0]))
  }

  /** How the compaction loop ends: leaving it, or still looping when the fuel runs out. */
  datatype Rounds = Finished(heap: Heap, dest: int) | Unfinished(heap: Heap)

  /**
   * `while (is_fragmented()) { ... }` for at most `fuel` rounds, starting
   * from the answer `frag` of the first test and the state after it.
   */
  function CompactLoop(frag: bool, st: Heap, fuel: nat, dest: int): (r: Rounds)
    requires frag ==> st.free != []
    ensures r.heap.alloc == st.alloc
    decreases fuel
  {
    if !frag then Finished(st, dest)
    else if fuel == 0 then Unfinished(st)
    else
      var (st2, d2) := CompactStep(st, dest);
      var (frag2, st3) := IsFragmented(st2);
      CompactLoop(frag2, st3, fuel - 1, d2)
  }

  /**
   * When the compaction loop leaves, the state is one on which is_fragmented
   * answered false: at most one free block, with no allocated block above it.
   */
  lemma {:induction false} CompactLoopFinishes(frag: bool, st: Heap, fuel: nat, dest: int)
    requires frag ==> st.free != []
    requires !frag ==> Compacted(st)
    ensures CompactLoop(frag, st, fuel, dest).Finished? ==> Compacted(CompactLoop(frag, st, fuel, dest).heap)
    decreases fuel
  {
    if frag && fuel > 0 {
      var (st2, d2) := CompactStep(st, dest);
      var (frag2, st3) := IsFragmented(st2);
      CompactLoopFinishes(frag2, st3, fuel - 1, d2);
    }
  }

  /** The loop of compact_allocation, from its first is_fragmented test on st, ends compacted when it ends. */
  lemma CompactLoopFromStart(st: Heap, fuel: nat, dest: int)
    ensures var first := IsFragmented(st);
      var rounds := CompactLoop(first.0, first.1, fuel, dest);
      rounds.Finished? ==> Compacted(rounds.heap)
  {
    var first := IsFragmented(st);
    CompactLoopFinishes(first.0, first.1, fuel, dest);
  }

  /** The entries of the allocated list that differ from `target`, in list order. */
  function Moved(s: seq<int>, target: int): (r: seq<int>)
    ensures |r| <= |s|
    ensures forall k :: 0 <= k < |r| ==> r[k] != target && r[k] in s
  {
    if s == [] then []
    else if s[0] != target then [s[0]] + Moved(s[1..], target)
    else Moved(s[1..], target)
  }

  /** Moving one more entry onto the end of the list. */
  lemma {:induction false} MovedSnoc(s: seq<int>, x: int, target: int)
    ensures Moved(s + [x], target) == Moved(s, target) + (if x != target then [x] else [])
  {
    if s == [] {
      assert s + [x] == [x];
    } else {
      assert (s + [x])[1..] == s[1..] + [x];
      MovedSnoc(s[1..], x, target);
    }
  }

  /** n copies of one address: the allocated list after the final loop of compact_allocation. */
  function AllAt(n: nat, target: int): (r: seq<int>)
    ensures |r| == n && forall k :: 0 <= k < n ==> r[k] == target
  {
    if n == 0 then [] else AllAt(n - 1, target) + [target]
  }
}
