/**
  Whole runs of the kernel heap, on block lists: what a call does to the list, and what
  every run of calls from the initial block keeps.
 */
module HeapRuns {
  import opened HeapBlocks

  /** A call on a heap: pointers are given by the header offset they stand for. */
  datatype Call = Alloc(size: nat) | Release(off: nat) | Resize(off: nat, size: nat)

  /** The block whose header is at off, or |bs|. */
  function IndexAt(bs: Blocks, off: nat): (k: nat)
    ensures k <= |bs|
    ensures k < |bs| ==> Addr(bs, k) == off
    ensures k == |bs| ==> forall i {:trigger Addr(bs, i)} :: 0 <= i < |bs| ==> Addr(bs, i) != off
  {
    IndexFrom(bs, off, 0)
  }

  function IndexFrom(bs: Blocks, off: nat, i: nat): (k: nat)
    requires i <= |bs|
    ensures i <= k <= |bs|
    ensures k < |bs| ==> Addr(bs, k) == off
    ensures forall j {:trigger Addr(bs, j)} :: i <= j < k ==> Addr(bs, j) != off
    decreases |bs| - i
  {
    if i == |bs| || Addr(bs, i) == off then i else IndexFrom(bs, off, i + 1)
  }

  lemma IndexIs(bs: Blocks, k: nat)
    requires Tiles(bs) && k < |bs|
    ensures IndexAt(bs, Addr(bs, k)) == k
  {
    var i := IndexAt(bs, Addr(bs, k));
    if i < |bs| {
      BlocksDisjoint(bs, i, k);
    }
  }

  lemma FirstFitIs(bs: Blocks, n: nat, k: nat)
    requires k <= |bs| && forall i :: 0 <= i < k ==> !FitsIn(bs[i], n)
    requires k < |bs| ==> FitsIn(bs[k], n)
    ensures FirstFit(bs, n) == k
  {
  }

  /** root_malloc(size) finds a block. */
  predicate CanAlloc(bs: Blocks, size: nat) {
    size != 0 && Align(size) != 0 && FirstFit(bs, Align(size)) < |bs|
  }

  /** root_malloc succeeds exactly on sizes that do not wrap and that some free block holds. */
  lemma CanAllocIff(bs: Blocks, size: nat)
    requires size <= U32_MAX
    ensures CanAlloc(bs, size) <==> 0 < size <= U32_MAX - 15 && Room(bs, size)
    ensures 0 < size <= U32_MAX - 15 && HasFree(bs, size + 15) ==> CanAlloc(bs, size)
  {
    if 0 < size {
      AlignMeans(size);
    }
    if 0 < size <= U32_MAX - 15 {
      forall i | 0 <= i < |bs|
        ensures FitsIn(bs[i], Align(size)) <==> bs[i].free && size <= Units(bs[i].size)
      {
        AlignFits(size, bs[i].size);
      }
    }
  }

  /** The pointer at off is one that root_malloc returned and nobody has freed. */
  predicate IsLive(bs: Blocks, off: nat) {
    IndexAt(bs, off) < |bs| && !bs[IndexAt(bs, off)].free
  }

  lemma LiveMeans(bs: Blocks, off: nat)
    requires Tiles(bs)
    ensures off in Live(bs, 0) <==> IsLive(bs, off)
  {
    if off in Live(bs, 0) {
      var i := LiveIndex(bs, 0, off);
      IndexIs(bs, i);
    } else if IsLive(bs, off) {
      LiveHas(bs, IndexAt(bs, off));
    }
  }

  function AfterAlloc(bs: Blocks, size: nat): Blocks {
    if CanAlloc(bs, size) then Take(bs, FirstFit(bs, Align(size)), Align(size)) else bs
  }

  function AfterRelease(bs: Blocks, off: nat): Blocks {
    if IsLive(bs, off) then Give(bs, IndexAt(bs, off)) else bs
  }

  predicate GrowsInPlace(bs: Blocks, k: nat, n: nat)
    requires k < |bs|
  {
    bs[k].size < n && Merges(bs, k) && n <= bs[k].size + HEADER + bs[k + 1].size
  }

  function Grown(bs: Blocks, k: nat, n: nat): Blocks
    requires k < |bs| && GrowsInPlace(bs, k, n)
  {
    SetFree(Split(MergeNext(bs, k), k, n), k, false)
  }

  /** root_realloc of a live block to size > 0 succeeds. */
  predicate CanResize(bs: Blocks, off: nat, size: nat) {
    && IsLive(bs, off) && Align(size) != 0
    && var k := IndexAt(bs, off);
       Align(size) <= bs[k].size || GrowsInPlace(bs, k, Align(size)) || CanAlloc(bs, size)
  }

  /** root_realloc succeeds exactly when the block, the block with its free neighbour, or another free block holds the size. */
  lemma CanResizeIff(bs: Blocks, off: nat, size: nat)
    requires 0 < size <= U32_MAX
    ensures CanResize(bs, off, size) <==>
            && size <= U32_MAX - 15 && IsLive(bs, off)
            && var k := IndexAt(bs, off);
               || size <= Units(bs[k].size)
               || (k + 1 < |bs| && bs[k + 1].free && size <= Units(bs[k].size + HEADER + bs[k + 1].size))
               || Room(bs, size)
  {
    AlignMeans(size);
    if size <= U32_MAX - 15 && IsLive(bs, off) {
      var k := IndexAt(bs, off);
      AlignFits(size, bs[k].size);
      if k + 1 < |bs| {
        AlignFits(size, bs[k].size + HEADER + bs[k + 1].size);
      }
      CanAllocIff(bs, size);
    }
  }

  function AfterResize(bs: Blocks, off: nat, size: nat): Blocks {
    if size == 0 then AfterRelease(bs, off) else
    if !IsLive(bs, off) || Align(size) == 0 then bs else
    var k, n := IndexAt(bs, off), Align(size);
    if n <= bs[k].size then Split(bs, k, n) else
    if GrowsInPlace(bs, k, n) then Grown(bs, k, n) else
    if CanAlloc(bs, size) then AfterRelease(AfterAlloc(bs, size), off) else bs
  }

  function Step(bs: Blocks, c: Call): Blocks {
    match c
    case Alloc(size) => AfterAlloc(bs, size)
    case Release(off) => AfterRelease(bs, off)
    case Resize(off, size) => AfterResize(bs, off, size)
  }

  function Run(bs: Blocks, calls: seq<Call>): Blocks
    decreases |calls|
  {
    if calls == [] then bs else Run(Step(bs, calls[0]), calls[1..])
  }

  // ----------------------------------------------------------------
  // What every call keeps
  // ----------------------------------------------------------------

  lemma StepTiles(bs: Blocks, c: Call)
    requires Tiles(bs)
    ensures Tiles(Step(bs, c))
  {
    match c
    case Alloc(size) => AllocTiles(bs, size);
    case Release(off) => ReleaseTiles(bs, off);
    case Resize(off, size) =>
      ReleaseTiles(bs, off);
      AllocTiles(bs, size);
      ReleaseTiles(AfterAlloc(bs, size), off);
      if IsLive(bs, off) {
        var k, n := IndexAt(bs, off), Align(size);
        if n <= bs[k].size {
          SplitLive(bs, k, n);
        } else if GrowsInPlace(bs, k, n) {
          MergeLive(bs, k);
          SplitLive(MergeNext(bs, k), k, n);
          SetFreeLive(Split(MergeNext(bs, k), k, n), k, false);
        }
      }
  }

  lemma AllocTiles(bs: Blocks, size: nat)
    requires Tiles(bs)
    ensures Tiles(AfterAlloc(bs, size))
  {
    if CanAlloc(bs, size) {
      TakeLive(bs, FirstFit(bs, Align(size)), Align(size));
    }
  }

  lemma ReleaseTiles(bs: Blocks, off: nat)
    requires Tiles(bs)
    ensures Tiles(AfterRelease(bs, off))
  {
    if IsLive(bs, off) {
      GiveLive(bs, IndexAt(bs, off));
    }
  }

  /** In every run the blocks tile the arena, so used + free + headers is 8 MiB. */
  lemma {:induction false} EveryRunTiles(bs: Blocks, calls: seq<Call>)
    requires Tiles(bs)
    ensures Tiles(Run(bs, calls))
    ensures var cs := Run(bs, calls); Total(cs, false) + Total(cs, true) + HEADER * |cs| == ARENA
    decreases |calls|
  {
    if calls == [] {
      Conservation(bs);
    } else {
      StepTiles(bs, calls[0]);
      EveryRunTiles(Step(bs, calls[0]), calls[1..]);
    }
  }

  // ----------------------------------------------------------------
  // Coalescing
  // ----------------------------------------------------------------

  /** A shrinking resize cuts a free block off in front of another free block. */
  predicate LeavesFreeNeighbours(bs: Blocks, off: nat, size: nat) {
    && IsLive(bs, off) && 0 < Align(size) <= bs[IndexAt(bs, off)].size
    && Splits(bs, IndexAt(bs, off), Align(size)) && Merges(bs, IndexAt(bs, off))
  }

  lemma AllocCoalesced(bs: Blocks, size: nat)
    requires Coalesced(bs)
    ensures Coalesced(AfterAlloc(bs, size))
  {
    if CanAlloc(bs, size) {
      TakeCoalesced(bs, FirstFit(bs, Align(size)), Align(size));
    }
  }

  lemma ReleaseCoalesced(bs: Blocks, off: nat)
    requires Coalesced(bs)
    ensures Coalesced(AfterRelease(bs, off))
  {
    if IsLive(bs, off) {
      GiveCoalesced(bs, IndexAt(bs, off));
    }
  }

  lemma SplitCoalesced(bs: Blocks, k: nat, n: nat)
    requires Coalesced(bs) && k < |bs| && !bs[k].free && n <= bs[k].size
    ensures Coalesced(Split(bs, k, n)) <==> !(Splits(bs, k, n) && Merges(bs, k))
  {
    var cs := Split(bs, k, n);
    if Splits(bs, k, n) && Merges(bs, k) {
      assert BothFree(cs, k + 1);
    } else {
      forall i
        ensures !BothFree(cs, i)
      {
        assert !BothFree(bs, i) && !BothFree(bs, i - 1);
      }
    }
  }

  lemma GrownCoalesced(bs: Blocks, k: nat, n: nat)
    requires Coalesced(bs) && k < |bs| && !bs[k].free && GrowsInPlace(bs, k, n)
    ensures Coalesced(Grown(bs, k, n))
  {
    var cs := Grown(bs, k, n);
    assert !BothFree(bs, k + 1);
    forall i
      ensures !BothFree(cs, i)
    {
      assert !BothFree(bs, i) && !BothFree(bs, i + 1);
    }
  }

  /** Exactly which resizes break the coalescing that root_malloc and root_free keep. */
  lemma ResizeCoalescedIff(bs: Blocks, off: nat, size: nat)
    requires Coalesced(bs)
    ensures Coalesced(AfterResize(bs, off, size)) <==> !(size != 0 && LeavesFreeNeighbours(bs, off, size))
  {
    if size == 0 {
      ReleaseCoalesced(bs, off);
    } else if IsLive(bs, off) && Align(size) != 0 {
      var k, n := IndexAt(bs, off), Align(size);
      if n <= bs[k].size {
        SplitCoalesced(bs, k, n);
      } else if GrowsInPlace(bs, k, n) {
        GrownCoalesced(bs, k, n);
      } else if CanAlloc(bs, size) {
        AllocCoalesced(bs, size);
        ReleaseCoalesced(AfterAlloc(bs, size), off);
      }
    }
  }

  /** malloc(64) followed by realloc to 16 leaves two free neighbours. */
  lemma ResizeCounterexample()
    ensures !Coalesced(Run(INITIAL, [Alloc(64), Resize(0, 16)]))
  {
    var calls := [Alloc(64), Resize(0, 16)];
    assert calls[1..] == [Resize(0, 16)] && calls[1..][1..] == [];
    FirstFitIs(INITIAL, 64, 0);
    var bs := [Block(64, false), Block(ARENA - HEADER - 64 - HEADER, true)];
    assert Take(INITIAL, 0, 64) == bs;
    assert Addr(bs, 0) == 0;
    SpanTwo(bs[0], bs[1]);
    IndexIs(bs, 0);
    var cs := AfterResize(bs, 0, 16);
    assert cs == [Block(16, false), Block(28, true), bs[1]];
    assert BothFree(cs, 1);
    assert Run(INITIAL, calls) == Run(bs, calls[1..]) == Run(cs, calls[1..][1..]) == cs;
  }

  ghost predicate NoResize(calls: seq<Call>) {
    forall i :: 0 <= i < |calls| ==> !calls[i].Resize?
  }

  /** malloc, calloc and free never leave two free neighbours. */
  lemma {:induction false} RunCoalesced(bs: Blocks, calls: seq<Call>)
    requires Coalesced(bs) && NoResize(calls)
    ensures Coalesced(Run(bs, calls))
    decreases |calls|
  {
    if calls != [] {
      match calls[0] {
        case Alloc(size) => AllocCoalesced(bs, size);
        case Release(off) => ReleaseCoalesced(bs, off);
      }
      RunCoalesced(Step(bs, calls[0]), calls[1..]);
    }
  }

  lemma NothingLiveIsInitial(bs: Blocks)
    requires Tiles(bs) && Coalesced(bs) && Live(bs, 0) == map[]
    ensures bs == INITIAL
  {
    forall i | 0 <= i < |bs|
      ensures bs[i].free
    {
      if !bs[i].free { LiveHas(bs, i); }
    }
    AllFreeIsInitial(bs);
  }

  lemma InitialTiles()
    ensures Tiles(INITIAL) && Coalesced(INITIAL)
  {
  }

  /** After any malloc/calloc/free run that has freed everything, the heap is the single initial block. */
  lemma FreeingAllRestores(calls: seq<Call>)
    requires NoResize(calls) && Live(Run(INITIAL, calls), 0) == map[]
    ensures Run(INITIAL, calls) == INITIAL
  {
    InitialTiles();
    EveryRunTiles(INITIAL, calls);
    RunCoalesced(INITIAL, calls);
    NothingLiveIsInitial(Run(INITIAL, calls));
  }

  lemma NoGap(bs: Blocks, size: nat, i: nat, j: nat, gap: int)
    requires Coalesced(bs) && 0 < size <= U32_MAX - 15 && !CanAlloc(bs, size)
    requires i <= j < |bs| && forall m :: i <= m <= j ==> bs[m].free
    requires gap == Addr(bs, j) + bs[j].size - Addr(bs, i)
    ensures Units(gap) < size
  {
    AlignMeans(size);
    NoGapFits(bs, Align(size), i, j);
    BelowUnits(size, gap);
  }

  /** After any malloc/calloc/free run a failing request has no contiguous free gap that would hold it. */
  lemma FailureMeansNoGap(calls: seq<Call>, size: nat, i: nat, j: nat, gap: int)
    requires NoResize(calls)
    requires var bs := Run(INITIAL, calls);
             0 < size <= U32_MAX - 15 && !CanAlloc(bs, size) && i <= j < |bs| && forall m :: i <= m <= j ==> bs[m].free
    requires var bs := Run(INITIAL, calls); gap == Addr(bs, j) + bs[j].size - Addr(bs, i)
    ensures Units(gap) < size
  {
    InitialTiles();
    RunCoalesced(INITIAL, calls);
    NoGap(Run(INITIAL, calls), size, i, j, gap);
  }
}
