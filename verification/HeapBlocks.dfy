/**
  The block list of the kernel heap (source/kernel/heap.c) as a value: a sequence of
  sizes and free flags that tiles one 8 MiB arena, each block behind a 20-byte header.
 */
module HeapBlocks {

  const ARENA := 8388608   // ROOT_HEAP_SIZE
  const HEADER := 20       // sizeof(HeapBlock) on i386
  const ALIGNMENT := 16
  const U32_MAX := 0xFFFF_FFFF

  datatype Block = Block(size: nat, free: bool)

  type Blocks = seq<Block>

  /** Bytes taken by a run of blocks, headers included. */
  function Span(bs: Blocks): nat {
    if bs == [] then 0 else HEADER + bs[0].size + Span(bs[1..])
  }

  /** Offset of the header of block i; at |bs| the end of the list. */
  function Addr(bs: Blocks, i: nat): nat
    requires i <= |bs|
  {
    if i == 0 then 0 else Addr(bs, i - 1) + HEADER + bs[i - 1].size
  }

  ghost predicate Tiles(bs: Blocks) {
    bs != [] && Span(bs) == ARENA
  }

  const INITIAL: Blocks := [Block(ARENA - HEADER, true)]

  /** No two neighbours are both free. */
  ghost predicate Coalesced(bs: Blocks) {
    forall i :: !BothFree(bs, i)
  }

  predicate BothFree(bs: Blocks, i: int) {
    0 <= i < |bs| - 1 && bs[i].free && bs[i + 1].free
  }

  // ----------------------------------------------------------------
  // Operations
  // ----------------------------------------------------------------

  /** heap_align: round up to 16; 0 when the sum would not fit in 32 bits. */
  function Align(n: nat): nat {
    if n > U32_MAX - 15 then 0 else (n + 15) / 16 * 16
  }

  /** What heap_align returns: the next multiple of 16, or 0 exactly where the sum wraps in 32 bits. */
  lemma AlignMeans(n: nat)
    requires 0 < n <= U32_MAX
    ensures Align(n) == 0 <==> n + 15 > U32_MAX
    ensures Align(n) != 0 ==> n <= Align(n) < n + 16 && Align(n) % 16 == 0
  {
  }

  /** How much of n bytes whole 16-byte units can use. */
  function Units(n: int): int {
    n / 16 * 16
  }

  lemma AlignFits(n: nat, size: nat)
    requires 0 < n <= U32_MAX - 15
    ensures Align(n) <= size <==> n <= Units(size)
  {
    AlignMeans(n);
  }

  lemma BelowUnits(n: nat, gap: int)
    requires 0 < n <= U32_MAX - 15 && gap < Align(n)
    ensures Units(gap) < n
  {
  }

  /** Some free block holds n bytes in whole units of 16. */
  ghost predicate Room(bs: Blocks, n: nat) {
    exists i :: 0 <= i < |bs| && bs[i].free && n <= Units(bs[i].size)
  }

  /** Some free block has at least n bytes. */
  ghost predicate HasFree(bs: Blocks, n: nat) {
    exists i :: 0 <= i < |bs| && bs[i].free && n <= bs[i].size
  }

  function Split(bs: Blocks, k: nat, req: nat): Blocks
    requires k < |bs| && req <= bs[k].size
  {
    if bs[k].size <= req + HEADER + ALIGNMENT then bs else
      bs[..k] + [Block(req, bs[k].free), Block(bs[k].size - req - HEADER, true)] + bs[k + 1..]
  }

  function MergeNext(bs: Blocks, k: nat): Blocks
    requires k < |bs|
  {
    if k + 1 < |bs| && bs[k + 1].free then
      bs[..k] + [Block(bs[k].size + HEADER + bs[k + 1].size, bs[k].free)] + bs[k + 2..]
    else bs
  }

  function SetFree(bs: Blocks, k: nat, free: bool): Blocks
    requires k < |bs|
  {
    bs[k := bs[k].(free := free)]
  }

  predicate FitsIn(b: Block, n: nat) {
    b.free && b.size >= n
  }

  /** Index of the first free block of at least n bytes, or |bs|. */
  function FirstFit(bs: Blocks, n: nat): (k: nat)
    ensures k <= |bs|
    ensures k < |bs| ==> FitsIn(bs[k], n)
    ensures forall i :: 0 <= i < k ==> !FitsIn(bs[i], n)
  {
    if bs == [] || FitsIn(bs[0], n) then 0 else
      var k := FirstFit(bs[1..], n);
      assert forall i :: 1 <= i < k + 1 ==> bs[i] == bs[1..][i - 1];
      k + 1
  }

  /** The block list after root_malloc has taken block k. */
  function Take(bs: Blocks, k: nat, n: nat): Blocks
    requires k < |bs| && n <= bs[k].size
  {
    SetFree(Split(bs, k, n), k, false)
  }

  /** The block list after root_free has given back block k. */
  function Give(bs: Blocks, k: nat): Blocks
    requires k < |bs|
  {
    MergePrevious(MergeNext(SetFree(bs, k, true), k), k)
  }

  function MergePrevious(bs: Blocks, k: nat): Blocks
    requires k < |bs|
  {
    if k > 0 && bs[k - 1].free then MergeNext(bs, k - 1) else bs
  }

  /**
    root_malloc hands out little more than asked: the block it takes keeps at most 36 bytes
    beyond the request, and all the rest of it is one free block behind it.
   */
  lemma TakeShape(bs: Blocks, k: nat, n: nat)
    requires k < |bs| && n <= bs[k].size
    ensures var cs := Take(bs, k, n); var more := |cs| - |bs|;
            && more == (if bs[k].size > n + HEADER + ALIGNMENT then 1 else 0)
            && cs[..k] == bs[..k] && cs[k + 1 + more..] == bs[k + 1..]
            && !cs[k].free && n <= cs[k].size <= n + HEADER + ALIGNMENT
            && (more == 1 ==> cs[k].size == n && cs[k + 1] == Block(bs[k].size - n - HEADER, true))
            && (more == 0 ==> cs[k].size == bs[k].size)
  {
  }

  // ----------------------------------------------------------------
  // Addresses
  // ----------------------------------------------------------------

  lemma {:induction false} SpanConcat(a: Blocks, b: Blocks)
    ensures Span(a + b) == Span(a) + Span(b)
  {
    if a == [] {
      assert a + b == b;
    } else {
      assert (a + b)[1..] == a[1..] + b;
      SpanConcat(a[1..], b);
    }
  }

  lemma {:induction false} AddrIsSpan(bs: Blocks, i: nat)
    requires i <= |bs|
    ensures Addr(bs, i) == Span(bs[..i])
  {
    if i > 0 {
      AddrIsSpan(bs, i - 1);
      assert bs[..i] == bs[..i - 1] + [bs[i - 1]];
      SpanConcat(bs[..i - 1], [bs[i - 1]]);
      SpanOne(bs[i - 1]);
    }
  }

  lemma AddrNext(bs: Blocks, i: nat)
    requires i < |bs|
    ensures Addr(bs, i + 1) == Addr(bs, i) + HEADER + bs[i].size
  {
  }

  /** Blocks follow each other without overlap. */
  lemma {:induction false} AddrMonotone(bs: Blocks, i: nat, j: nat)
    requires i < j <= |bs|
    ensures Addr(bs, i) + HEADER + bs[i].size <= Addr(bs, j)
  {
    if i < j - 1 {
      AddrMonotone(bs, i, j - 1);
    }
  }

  lemma AddrEnd(bs: Blocks)
    ensures Addr(bs, |bs|) == Span(bs)
  {
    AddrIsSpan(bs, |bs|);
    assert bs[..|bs|] == bs;
  }

  lemma AddrStretch(bs: Blocks, i: nat, j: nat)
    requires i <= j <= |bs|
    ensures Addr(bs, j) == Addr(bs, i) + Span(bs[i..j])
  {
    AddrIsSpan(bs, i);
    AddrIsSpan(bs, j);
    assert bs[..j] == bs[..i] + bs[i..j];
    SpanConcat(bs[..i], bs[i..j]);
  }

  /** Every block lies in the arena, and distinct blocks are disjoint. */
  lemma BlocksDisjoint(bs: Blocks, i: nat, j: nat)
    requires Tiles(bs) && i < |bs| && j < |bs|
    ensures Addr(bs, i) + HEADER + bs[i].size <= ARENA
    ensures i < j ==> Addr(bs, i) + HEADER + bs[i].size <= Addr(bs, j)
    ensures i == j <==> Addr(bs, i) == Addr(bs, j)
  {
    AddrEnd(bs);
    AddrMonotone(bs, i, |bs|);
    if i < j {
      AddrMonotone(bs, i, j);
    } else if j < i {
      AddrMonotone(bs, j, i);
    }
  }

  // ----------------------------------------------------------------
  // Replacing a stretch of blocks
  // ----------------------------------------------------------------

  function Splice(bs: Blocks, a: nat, b: nat, mid: Blocks): Blocks
    requires a <= b <= |bs|
  {
    bs[..a] + mid + bs[b..]
  }

  /** Replacing blocks a..b by others of the same span moves no other block. */
  lemma SpliceAddr(bs: Blocks, a: nat, b: nat, mid: Blocks, i: nat)
    requires a <= b <= |bs| && Span(mid) == Span(bs[a..b]) && i <= |bs|
    ensures var cs := Splice(bs, a, b, mid);
            && Span(cs) == Span(bs)
            && (i <= a ==> Addr(cs, i) == Addr(bs, i))
            && (i >= b ==> Addr(cs, i - b + a + |mid|) == Addr(bs, i))
  {
    var cs := Splice(bs, a, b, mid);
    SpanOfThree(bs[..a], mid, bs[b..]);
    assert bs == bs[..a] + bs[a..b] + bs[b..];
    SpanOfThree(bs[..a], bs[a..b], bs[b..]);
    AddrIsSpan(bs, i);
    if i <= a {
      assert cs[..i] == bs[..i];
      AddrIsSpan(cs, i);
    }
    if i >= b {
      SpliceAfter(bs, a, b, mid, i);
    }
  }

  lemma {:induction false} SpliceAfter(bs: Blocks, a: nat, b: nat, mid: Blocks, i: nat)
    requires a <= b <= i <= |bs| && Span(mid) == Span(bs[a..b])
    ensures Addr(Splice(bs, a, b, mid), i - b + a + |mid|) == Addr(bs, i)
  {
    var cs, j := Splice(bs, a, b, mid), i - b + a + |mid|;
    AddrIsSpan(bs, i);
    AddrIsSpan(cs, j);
    SplicePrefixes(bs, a, b, mid, i);
    SpanOfThree(bs[..a], mid, bs[b..i]);
    SpanOfThree(bs[..a], bs[a..b], bs[b..i]);
  }

  lemma SplicePrefixes(bs: Blocks, a: nat, b: nat, mid: Blocks, i: nat)
    requires a <= b <= i <= |bs|
    ensures Splice(bs, a, b, mid)[..i - b + a + |mid|] == bs[..a] + mid + bs[b..i]
    ensures bs[..i] == bs[..a] + bs[a..b] + bs[b..i]
  {
  }

  /**
    cs is bs with the blocks a..b replaced by the blocks a..c, which take the same bytes:
    every other block keeps its contents and its address.
   */
  ghost predicate Shifted(bs: Blocks, cs: Blocks, a: nat, b: nat, c: nat) {
    && a < b <= |bs| && a < c <= |cs| && |cs| - c == |bs| - b
    && (forall i {:trigger Addr(bs, i)} :: 0 <= i <= a ==> Addr(cs, i) == Addr(bs, i))
    && (forall i {:trigger Addr(bs, i)} :: b <= i <= |bs| ==> Addr(cs, i - b + c) == Addr(bs, i))
    && (forall i {:trigger bs[i]} :: 0 <= i < a ==> cs[i] == bs[i])
    && (forall i {:trigger bs[i]} :: b <= i < |bs| ==> cs[i - b + c] == bs[i])
  }

  lemma SpliceShifted(bs: Blocks, a: nat, b: nat, mid: Blocks)
    requires Tiles(bs) && a < b <= |bs| && mid != [] && Span(mid) == Span(bs[a..b])
    ensures Tiles(Splice(bs, a, b, mid)) && Shifted(bs, Splice(bs, a, b, mid), a, b, a + |mid|)
  {
    SpliceAddr(bs, a, b, mid, |bs|);
    SpliceAddrs(bs, a, b, mid);
    SpliceElements(bs, a, b, mid);
  }

  lemma SpliceAddrs(bs: Blocks, a: nat, b: nat, mid: Blocks)
    requires a <= b <= |bs| && Span(mid) == Span(bs[a..b])
    ensures var cs, c := Splice(bs, a, b, mid), a + |mid|;
            && (forall i {:trigger Addr(bs, i)} :: 0 <= i <= a ==> Addr(cs, i) == Addr(bs, i))
            && (forall i {:trigger Addr(bs, i)} :: b <= i <= |bs| ==> Addr(cs, i - b + c) == Addr(bs, i))
  {
    forall i | 0 <= i <= a
      ensures Addr(Splice(bs, a, b, mid), i) == Addr(bs, i)
    {
      SpliceAddr(bs, a, b, mid, i);
    }
    forall i | b <= i <= |bs|
      ensures Addr(Splice(bs, a, b, mid), i - b + (a + |mid|)) == Addr(bs, i)
    {
      SpliceAddr(bs, a, b, mid, i);
    }
  }

  lemma SpliceElements(bs: Blocks, a: nat, b: nat, mid: Blocks)
    requires a <= b <= |bs|
    ensures var cs, c := Splice(bs, a, b, mid), a + |mid|;
            && |cs| - c == |bs| - b
            && (forall i {:trigger bs[i]} :: 0 <= i < a ==> cs[i] == bs[i])
            && (forall i {:trigger bs[i]} :: b <= i < |bs| ==> cs[i - b + c] == bs[i])
  {
  }

  lemma SplitShifted(bs: Blocks, k: nat, req: nat)
    requires Tiles(bs) && k < |bs| && req <= bs[k].size && Splits(bs, k, req)
    ensures var cs := Split(bs, k, req);
            && Tiles(cs) && Shifted(bs, cs, k, k + 1, k + 2)
            && cs[k] == Block(req, bs[k].free) && cs[k + 1] == Block(bs[k].size - req - HEADER, true)
  {
    SplitIsSplice(bs, k, req);
    SpliceShifted(bs, k, k + 1, Halves(bs[k], req));
  }

  lemma SpliceMiddle(bs: Blocks, a: nat, b: nat, x: Block)
    requires a <= b <= |bs|
    ensures Splice(bs, a, b, [x])[a] == x
  {
  }

  lemma MergeShifted(bs: Blocks, k: nat)
    requires Tiles(bs) && Merges(bs, k)
    ensures var cs := MergeNext(bs, k);
            Tiles(cs) && Shifted(bs, cs, k, k + 2, k + 1) && cs[k] == Joined(bs, k)
  {
    var x := Joined(bs, k);
    MergeIsSplice(bs, k);
    SpliceShifted(bs, k, k + 2, [x]);
    SpliceMiddle(bs, k, k + 2, x);
  }

  lemma SetFreeShifted(bs: Blocks, k: nat, free: bool)
    requires Tiles(bs) && k < |bs|
    ensures var cs := SetFree(bs, k, free);
            Tiles(cs) && Shifted(bs, cs, k, k + 1, k + 1) && cs[k] == bs[k].(free := free)
  {
    SetFreeIsSplice(bs, k, free);
    SpliceShifted(bs, k, k + 1, [bs[k].(free := free)]);
  }

  lemma SpanOfThree(a: Blocks, b: Blocks, c: Blocks)
    ensures Span(a + b + c) == Span(a) + Span(b) + Span(c)
  {
    SpanConcat(a + b, c);
    SpanConcat(a, b);
  }

  lemma SpanOne(x: Block)
    ensures Span([x]) == HEADER + x.size
  {
  }

  lemma SpanTwo(x: Block, y: Block)
    ensures Span([x, y]) == 2 * HEADER + x.size + y.size
  {
    SpanOne(y);
    assert [x, y][1..] == [y];
  }

  predicate Splits(bs: Blocks, k: nat, req: nat)
    requires k < |bs|
  {
    bs[k].size > req + HEADER + ALIGNMENT
  }

  function Halves(b: Block, req: nat): Blocks
    requires req + HEADER <= b.size
  {
    [Block(req, b.free), Block(b.size - req - HEADER, true)]
  }

  lemma SplitIsSplice(bs: Blocks, k: nat, req: nat)
    requires k < |bs| && req <= bs[k].size && Splits(bs, k, req)
    ensures Split(bs, k, req) == Splice(bs, k, k + 1, Halves(bs[k], req))
    ensures Span(Halves(bs[k], req)) == Span(bs[k..k + 1])
  {
    var h := Halves(bs[k], req);
    SpanTwo(h[0], h[1]);
    assert bs[k..k + 1] == [bs[k]];
    SpanOne(bs[k]);
  }

  predicate Merges(bs: Blocks, k: nat) {
    k + 1 < |bs| && bs[k + 1].free
  }

  function Joined(bs: Blocks, k: nat): Block
    requires Merges(bs, k)
  {
    Block(bs[k].size + HEADER + bs[k + 1].size, bs[k].free)
  }

  lemma MergeIsSplice(bs: Blocks, k: nat)
    requires Merges(bs, k)
    ensures MergeNext(bs, k) == Splice(bs, k, k + 2, [Joined(bs, k)])
    ensures Span([Joined(bs, k)]) == Span(bs[k..k + 2])
  {
    SpanOne(Joined(bs, k));
    assert bs[k..k + 2] == [bs[k], bs[k + 1]];
    SpanTwo(bs[k], bs[k + 1]);
  }

  lemma SetFreeIsSplice(bs: Blocks, k: nat, free: bool)
    requires k < |bs|
    ensures SetFree(bs, k, free) == Splice(bs, k, k + 1, [bs[k].(free := free)])
    ensures Span([bs[k].(free := free)]) == Span(bs[k..k + 1])
  {
  }

  // ----------------------------------------------------------------
  // Conservation
  // ----------------------------------------------------------------

  /** heap_used_bytes and heap_free_bytes */
  function Total(bs: Blocks, free: bool): nat {
    if bs == [] then 0
    else Total(bs[..|bs| - 1], free) + if bs[|bs| - 1].free == free then bs[|bs| - 1].size else 0
  }

  lemma {:induction false} SpanIsTotal(bs: Blocks)
    ensures Span(bs) == Total(bs, true) + Total(bs, false) + HEADER * |bs|
  {
    if bs != [] {
      var n := |bs| - 1;
      SpanIsTotal(bs[..n]);
      assert bs == bs[..n] + [bs[n]];
      SpanConcat(bs[..n], [bs[n]]);
      SpanOne(bs[n]);
    }
  }

  /** used + free + 20 * blocks is always the size of the arena. */
  lemma Conservation(bs: Blocks)
    requires Tiles(bs)
    ensures Total(bs, false) + Total(bs, true) + HEADER * |bs| == ARENA
  {
    SpanIsTotal(bs);
  }

  /** Every block has room for a payload, so no pointer lies at the very end of the arena. */
  ghost predicate NoEmpty(bs: Blocks) {
    forall i :: 0 <= i < |bs| ==> bs[i].size > 0
  }

  lemma EditsNoEmpty(bs: Blocks, k: nat, req: nat, free: bool)
    requires NoEmpty(bs) && k < |bs| && 0 < req
    ensures req <= bs[k].size ==> NoEmpty(Split(bs, k, req))
    ensures NoEmpty(MergeNext(bs, k)) && NoEmpty(SetFree(bs, k, free))
  {
    if req <= bs[k].size {
      SplitNoEmpty(bs, k, req);
    }
    MergeNoEmpty(bs, k);
  }

  lemma SplitNoEmpty(bs: Blocks, k: nat, req: nat)
    requires NoEmpty(bs) && k < |bs| && 0 < req <= bs[k].size
    ensures NoEmpty(Split(bs, k, req))
  {
  }

  lemma MergeNoEmpty(bs: Blocks, k: nat)
    requires NoEmpty(bs) && k < |bs|
    ensures NoEmpty(MergeNext(bs, k))
  {
  }

  // ----------------------------------------------------------------
  // Coalescing
  // ----------------------------------------------------------------

  lemma TakeCoalesced(bs: Blocks, k: nat, n: nat)
    requires Coalesced(bs) && k < |bs| && bs[k].free && n <= bs[k].size
    ensures Coalesced(Take(bs, k, n))
  {
    var cs := Take(bs, k, n);
    assert !BothFree(bs, k);
    forall i
      ensures !BothFree(cs, i)
    {
      assert !BothFree(bs, i) && !BothFree(bs, i - 1);
    }
  }

  /** One block in place of bs[a..b], between blocks in use, creates no free neighbours. */
  lemma SpliceCoalesced(bs: Blocks, a: nat, b: nat, x: Block)
    requires Coalesced(bs) && a <= b <= |bs|
    requires (a > 0 ==> !bs[a - 1].free) && (b < |bs| ==> !bs[b].free)
    ensures Coalesced(bs[..a] + [x] + bs[b..])
  {
    var cs := bs[..a] + [x] + bs[b..];
    forall i
      ensures !BothFree(cs, i)
    {
      assert !BothFree(bs, i) && !BothFree(bs, i - a - 1 + b);
    }
  }

  /** Where the block list is rewritten when block k is given back. */
  function Left(bs: Blocks, k: nat): nat
    requires k < |bs|
  {
    if k > 0 && bs[k - 1].free then k - 1 else k
  }

  function Right(bs: Blocks, k: nat): nat
    requires k < |bs|
  {
    if k + 1 < |bs| && bs[k + 1].free then k + 2 else k + 1
  }

  /** Give in one piece: block k absorbs its free neighbours on both sides. */
  lemma GiveShape(bs: Blocks, k: nat) returns (x: Block)
    requires k < |bs|
    ensures x.free && Give(bs, k) == bs[..Left(bs, k)] + [x] + bs[Right(bs, k)..]
  {
    var freed := SetFree(bs, k, true);
    var merged := MergeNext(freed, k);
    assert merged == bs[..k] + [merged[k]] + bs[Right(bs, k)..];
    x := Give(bs, k)[Left(bs, k)];
  }

  lemma GiveCoalesced(bs: Blocks, k: nat)
    requires Coalesced(bs) && k < |bs| && !bs[k].free
    ensures Coalesced(Give(bs, k))
  {
    var x := GiveShape(bs, k);
    assert !BothFree(bs, k - 2) && !BothFree(bs, k + 1);
    SpliceCoalesced(bs, Left(bs, k), Right(bs, k), x);
  }

  /** Freeing everything restores the single initial block. */
  lemma AllFreeIsInitial(bs: Blocks)
    requires Tiles(bs) && Coalesced(bs) && forall i :: 0 <= i < |bs| ==> bs[i].free
    ensures bs == INITIAL
  {
    assert !BothFree(bs, 0);
    SpanOne(bs[0]);
    assert bs == [bs[0]];
  }

  /**
    In a coalesced heap a request fails only if no run of adjacent free blocks, with the
    headers between them, could hold it: such a run is a single block.
   */
  lemma NoGapFits(bs: Blocks, n: nat, i: nat, j: nat)
    requires Coalesced(bs) && FirstFit(bs, n) == |bs|
    requires i <= j < |bs| && forall m :: i <= m <= j ==> bs[m].free
    ensures Addr(bs, j) + bs[j].size - Addr(bs, i) < n
  {
    assert !BothFree(bs, i);
    assert !FitsIn(bs[i], n);
    assert i == j;
  }

  // ----------------------------------------------------------------
  // Live blocks: the abstract heap
  // ----------------------------------------------------------------

  /** Offsets of the headers of the blocks in use, with their sizes, for a list that starts at o. */
  function Live(bs: Blocks, o: nat): map<nat, nat>
    decreases |bs|
  {
    if bs == [] then map[] else
      var rest := Live(bs[1..], o + HEADER + bs[0].size);
      if bs[0].free then rest else rest[o := bs[0].size]
  }

  lemma {:induction false} LiveRange(bs: Blocks, o: nat, x: nat)
    requires x in Live(bs, o)
    ensures o <= x && x + HEADER + Live(bs, o)[x] <= o + Span(bs)
    decreases |bs|
  {
    if x in Live(bs[1..], o + HEADER + bs[0].size) {
      LiveRange(bs[1..], o + HEADER + bs[0].size, x);
    }
  }

  lemma {:induction false} LiveConcat(a: Blocks, b: Blocks, o: nat)
    ensures Live(a + b, o) == Live(a, o) + Live(b, o + Span(a))
    decreases |a|
  {
    if a == [] {
      assert a + b == b;
    } else {
      assert (a + b)[1..] == a[1..] + b;
      var o' := o + HEADER + a[0].size;
      LiveConcat(a[1..], b, o');
      if !a[0].free && o in Live(b, o + Span(a)) {
        LiveRange(b, o + Span(a), o);
      }
    }
  }

  /** Rewriting a stretch changes the live blocks inside it and no others. */
  lemma SpliceLive(bs: Blocks, a: nat, b: nat, mid: Blocks, off: nat)
    requires a <= b <= |bs| && Span(mid) == Span(bs[a..b])
    requires Live(bs[a..b], Addr(bs, a)).Keys <= {off} && Live(mid, Addr(bs, a)).Keys <= {off}
    requires Addr(bs, a) <= off < Addr(bs, b)
    ensures Live(Splice(bs, a, b, mid), 0) == (Live(bs, 0) - {off}) + Live(mid, Addr(bs, a))
  {
    assert bs == bs[..a] + bs[a..b] + bs[b..];
    AddrIsSpan(bs, a);
    AddrStretch(bs, a, b);
    LiveMiddle(bs[..a], bs[a..b], bs[b..], mid, off);
  }

  lemma {:induction false} LiveMiddle(x: Blocks, y: Blocks, z: Blocks, mid: Blocks, off: nat)
    requires Span(mid) == Span(y)
    requires Live(y, Span(x)).Keys <= {off} && Live(mid, Span(x)).Keys <= {off}
    requires Span(x) <= off < Span(x) + Span(y)
    ensures Live(x + mid + z, 0) == (Live(x + y + z, 0) - {off}) + Live(mid, Span(x))
  {
    LiveOfThree(x, y, z);
    LiveOfThree(x, mid, z);
    LiveOutside(x, 0, off);
    LiveOutside(z, Span(x) + Span(y), off);
    ReplaceMiddle(Live(x, 0), Live(y, Span(x)), Live(z, Span(x) + Span(y)), Live(mid, Span(x)), off);
  }

  lemma LiveOutside(bs: Blocks, o: nat, x: nat)
    requires x < o || o + Span(bs) <= x
    ensures x !in Live(bs, o)
  {
  }

  lemma ReplaceMiddle(a: map<nat, nat>, b: map<nat, nat>, c: map<nat, nat>, m: map<nat, nat>, off: nat)
    requires off !in a && off !in c && b.Keys <= {off} && m.Keys <= {off}
    ensures a + m + c == ((a + b + c) - {off}) + m
  {
  }

  lemma {:induction false} LiveOfThree(a: Blocks, b: Blocks, c: Blocks)
    ensures Live(a + b + c, 0) == Live(a, 0) + Live(b, Span(a)) + Live(c, Span(a) + Span(b))
  {
    SpanConcat(a, b);
    LiveConcat(a, b, 0);
    LiveJoined(a + b, c, Span(a) + Span(b), Live(a, 0) + Live(b, Span(a)));
  }

  lemma {:induction false} LiveJoined(ab: Blocks, c: Blocks, span: nat, live: map<nat, nat>)
    requires Span(ab) == span && Live(ab, 0) == live
    ensures Live(ab + c, 0) == live + Live(c, span)
  {
    LiveConcat(ab, c, 0);
  }

  lemma LiveOne(x: Block, o: nat)
    ensures Live([x], o) == if x.free then map[] else map[o := x.size]
  {
  }

  lemma LiveTwo(x: Block, y: Block, o: nat)
    ensures Live([x, y], o) ==
            (if y.free then map[] else map[o + HEADER + x.size := y.size]) + (if x.free then map[] else map[o := x.size])
  {
    assert [x, y][1..] == [y];
    LiveOne(y, o + HEADER + x.size);
  }

  /** Block k alone, in use or free. */
  lemma LiveAt(bs: Blocks, k: nat)
    requires k < |bs|
    ensures Live(bs, 0) == (Live(bs, 0) - {Addr(bs, k)}) + (if bs[k].free then map[] else map[Addr(bs, k) := bs[k].size])
  {
    var y := [bs[k]];
    assert bs[k..k + 1] == y;
    assert Splice(bs, k, k + 1, y) == bs;
    LiveOne(bs[k], Addr(bs, k));
    AddrNext(bs, k);
    SpliceLive(bs, k, k + 1, y, Addr(bs, k));
  }

  lemma SetFreeLive(bs: Blocks, k: nat, free: bool)
    requires Tiles(bs) && k < |bs|
    ensures Tiles(SetFree(bs, k, free)) && Addr(SetFree(bs, k, free), k) == Addr(bs, k)
    ensures Live(SetFree(bs, k, free), 0)
            == (Live(bs, 0) - {Addr(bs, k)}) + (if free then map[] else map[Addr(bs, k) := bs[k].size])
  {
    var x := bs[k].(free := free);
    SetFreeIsSplice(bs, k, free);
    SpliceAddr(bs, k, k + 1, [x], k);
    assert bs[k..k + 1] == [bs[k]];
    LiveOne(bs[k], Addr(bs, k));
    LiveOne(x, Addr(bs, k));
    AddrNext(bs, k);
    SpliceLive(bs, k, k + 1, [x], Addr(bs, k));
  }

  /** Splitting block k shortens it, in use or free; nothing else becomes live or dead. */
  lemma SplitLive(bs: Blocks, k: nat, req: nat)
    requires Tiles(bs) && k < |bs| && req <= bs[k].size
    ensures Tiles(Split(bs, k, req)) && Addr(Split(bs, k, req), k) == Addr(bs, k)
    ensures k < |Split(bs, k, req)| && Split(bs, k, req)[k].free == bs[k].free && Split(bs, k, req)[k].size >= req
    ensures Live(Split(bs, k, req), 0) == (Live(bs, 0) - {Addr(bs, k)})
            + (if bs[k].free then map[] else map[Addr(bs, k) := Split(bs, k, req)[k].size])
  {
    if Splits(bs, k, req) {
      var h := Halves(bs[k], req);
      SplitIsSplice(bs, k, req);
      SpliceAddr(bs, k, k + 1, h, k);
      assert bs[k..k + 1] == [bs[k]];
      LiveOne(bs[k], Addr(bs, k));
      LiveTwo(h[0], h[1], Addr(bs, k));
      AddrNext(bs, k);
      SpliceLive(bs, k, k + 1, h, Addr(bs, k));
    } else {
      LiveAt(bs, k);
    }
  }

  /** Absorbing a free neighbour lengthens block k, in use or free. */
  lemma MergeLive(bs: Blocks, k: nat)
    requires Tiles(bs) && k < |bs|
    ensures Tiles(MergeNext(bs, k)) && k < |MergeNext(bs, k)| && Addr(MergeNext(bs, k), k) == Addr(bs, k)
    ensures MergeNext(bs, k)[k].free == bs[k].free && MergeNext(bs, k)[k].size >= bs[k].size
    ensures Live(MergeNext(bs, k), 0) == (Live(bs, 0) - {Addr(bs, k)})
            + (if bs[k].free then map[] else map[Addr(bs, k) := MergeNext(bs, k)[k].size])
  {
    if Merges(bs, k) {
      var x := Joined(bs, k);
      MergeIsSplice(bs, k);
      SpliceAddr(bs, k, k + 2, [x], k);
      assert bs[k..k + 2] == [bs[k], bs[k + 1]];
      LiveTwo(bs[k], bs[k + 1], Addr(bs, k));
      LiveOne(x, Addr(bs, k));
      AddrNext(bs, k);
      AddrNext(bs, k + 1);
      SpliceLive(bs, k, k + 2, [x], Addr(bs, k));
    } else {
      LiveAt(bs, k);
    }
  }

  /** root_malloc makes exactly one block live, at least as large as asked. */
  lemma TakeLive(bs: Blocks, k: nat, n: nat)
    requires Tiles(bs) && k < |bs| && n <= bs[k].size && bs[k].free
    ensures Tiles(Take(bs, k, n)) && k < |Take(bs, k, n)| && Addr(Take(bs, k, n), k) == Addr(bs, k)
    ensures n <= Take(bs, k, n)[k].size && Addr(bs, k) !in Live(bs, 0)
    ensures Live(Take(bs, k, n), 0) == Live(bs, 0)[Addr(bs, k) := Take(bs, k, n)[k].size]
  {
    LiveAt(bs, k);
    SplitLive(bs, k, n);
    SetFreeLive(Split(bs, k, n), k, false);
  }

  /** root_free makes exactly that block dead. */
  lemma GiveLive(bs: Blocks, k: nat)
    requires Tiles(bs) && k < |bs| && !bs[k].free
    ensures Tiles(Give(bs, k))
    ensures Addr(bs, k) in Live(bs, 0) && Live(bs, 0)[Addr(bs, k)] == bs[k].size
    ensures Live(Give(bs, k), 0) == Live(bs, 0) - {Addr(bs, k)}
  {
    LiveAt(bs, k);
    SetFreeLive(bs, k, true);
    MergeFreeLive(SetFree(bs, k, true), k);
    MergePreviousLive(MergeNext(SetFree(bs, k, true), k), k);
  }

  lemma MergePreviousLive(bs: Blocks, k: nat)
    requires Tiles(bs) && k < |bs|
    ensures Tiles(MergePrevious(bs, k)) && Live(MergePrevious(bs, k), 0) == Live(bs, 0)
  {
    if k > 0 && bs[k - 1].free {
      MergeFreeLive(bs, k - 1);
    }
  }

  lemma MergeFreeLive(bs: Blocks, k: nat)
    requires Tiles(bs) && k < |bs| && bs[k].free
    ensures Tiles(MergeNext(bs, k)) && k < |MergeNext(bs, k)|
    ensures Live(MergeNext(bs, k), 0) == Live(bs, 0)
  {
    MergeLive(bs, k);
    LiveAt(bs, k);
  }

  /** The block behind a live offset. */
  lemma {:induction false} LiveIndex(bs: Blocks, o: nat, x: nat) returns (i: nat)
    requires x in Live(bs, o)
    ensures i < |bs| && !bs[i].free && bs[i].size == Live(bs, o)[x] && x == o + Addr(bs, i)
    decreases |bs|
  {
    if !bs[0].free && x == o {
      i := 0;
    } else {
      var j := LiveIndex(bs[1..], o + HEADER + bs[0].size, x);
      i := j + 1;
      AddrIsSpan(bs, i);
      AddrIsSpan(bs[1..], j);
      assert bs[..j + 1][1..] == bs[1..][..j];
    }
  }

  /** A block in use is live. */
  lemma LiveHas(bs: Blocks, k: nat)
    requires k < |bs| && !bs[k].free
    ensures Addr(bs, k) in Live(bs, 0) && Live(bs, 0)[Addr(bs, k)] == bs[k].size
  {
    LiveAt(bs, k);
  }
}
