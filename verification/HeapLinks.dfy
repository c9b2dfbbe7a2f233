/**
  Headers of the kernel heap as records: the block list that a reader of headers finds
  by following sizes, and how rewriting a few headers changes it.
 */
module HeapLinks {
  import opened HeapBlocks

  const MAGIC := 0x4845_4150

  datatype Header = Header(magic: nat, size: nat, free: bool, previous: nat, next: nat)

  /** Reads the header at an offset. */
  type Reader = nat -> Header

  function PreviousPtr(bs: Blocks, i: nat, base: nat): nat
    requires i < |bs|
  {
    if i == 0 then 0 else base + Addr(bs, i - 1)
  }

  function NextPtr(bs: Blocks, i: nat, base: nat): nat
    requires i < |bs|
  {
    if i + 1 == |bs| then 0 else base + Addr(bs, i + 1)
  }

  /** The header block i must have: links are absolute addresses, both ways. */
  function HeaderFor(bs: Blocks, i: nat, base: nat): Header
    requires i < |bs|
  {
    Header(MAGIC, bs[i].size, bs[i].free, PreviousPtr(bs, i, base), NextPtr(bs, i, base))
  }

  /** The headers list exactly these blocks, and the blocks tile the arena. */
  ghost predicate Lists(h: Reader, bs: Blocks, base: nat) {
    && Tiles(bs)
    && forall i {:trigger h(Addr(bs, i))} :: 0 <= i < |bs| ==> h(Addr(bs, i)) == HeaderFor(bs, i, base)
  }

  /** previous and next are mutually inverse, and walk the blocks in address order. */
  lemma LinksInverse(h: Reader, bs: Blocks, base: nat, i: nat)
    requires Lists(h, bs, base) && i < |bs|
    ensures i + 1 < |bs| ==> h(Addr(bs, i)).next == base + Addr(bs, i + 1) && h(Addr(bs, i + 1)).previous == base + Addr(bs, i)
    ensures i == 0 ==> h(Addr(bs, i)).previous == 0
    ensures i + 1 == |bs| ==> h(Addr(bs, i)).next == 0
  {
  }

  ghost predicate KeptOutside(h: Reader, h': Reader, bs: Blocks, a: nat, b: nat) {
    forall i {:trigger h'(Addr(bs, i))} :: 0 <= i < |bs| && (i < a || b < i) ==> h'(Addr(bs, i)) == h(Addr(bs, i))
  }

  ghost predicate NewInside(h': Reader, cs: Blocks, a: nat, c: nat, base: nat)
    requires c <= |cs|
  {
    forall i {:trigger h'(Addr(cs, i))} :: a <= i < c ==> h'(Addr(cs, i)) == HeaderFor(cs, i, base)
  }

  /**
    The headers of blocks a..b are replaced by those of the blocks a..c of cs, and the
    header after them points back to the last of those: the reader then finds cs.
   */
  lemma ShiftLists(h: Reader, h': Reader, bs: Blocks, cs: Blocks, a: nat, b: nat, c: nat, base: nat)
    requires Lists(h, bs, base) && Tiles(cs) && Shifted(bs, cs, a, b, c)
    requires KeptOutside(h, h', bs, a, b) && NewInside(h', cs, a, c, base)
    requires b < |bs| ==> h'(Addr(bs, b)) == h(Addr(bs, b)).(previous := base + Addr(cs, c - 1))
    ensures Lists(h', cs, base)
  {
    forall i | 0 <= i < |cs|
      ensures h'(Addr(cs, i)) == HeaderFor(cs, i, base)
    {
      if i < a {
        KeptBefore(bs, cs, a, b, c, base, i);
        assert h(Addr(bs, i)) == HeaderFor(bs, i, base);
      } else if i >= c {
        KeptAfter(bs, cs, a, b, c, base, i);
        assert h(Addr(bs, i - c + b)) == HeaderFor(bs, i - c + b, base);
      }
    }
  }

  lemma KeptBefore(bs: Blocks, cs: Blocks, a: nat, b: nat, c: nat, base: nat, i: nat)
    requires Shifted(bs, cs, a, b, c) && i < a
    ensures Addr(cs, i) == Addr(bs, i) && HeaderFor(cs, i, base) == HeaderFor(bs, i, base)
  {
  }

  lemma KeptAfter(bs: Blocks, cs: Blocks, a: nat, b: nat, c: nat, base: nat, i: nat)
    requires Shifted(bs, cs, a, b, c) && c <= i < |cs|
    ensures var j := i - c + b;
            && Addr(cs, i) == Addr(bs, j)
            && HeaderFor(cs, i, base) == HeaderFor(bs, j, base).(previous := base + Addr(cs, i - 1))
            && (j > b ==> base + Addr(cs, i - 1) == PreviousPtr(bs, j, base))
  {
  }

  /** Two header windows do not overlap. */
  predicate Apart(x: nat, y: nat) {
    x + HEADER <= y || y + HEADER <= x
  }

  /** Headers away from the three named ones read as before. */
  ghost predicate OtherHeadersKept(h: Reader, h': Reader, a: nat, n: nat, b: nat) {
    forall x {:trigger h'(x)} :: Apart(x, a) && Apart(x, n) && Apart(x, b) ==> h'(x) == h(x)
  }

  lemma {:induction false} OthersApart(bs: Blocks, k: nat, i: nat)
    requires Tiles(bs) && i < |bs| && k < |bs| && i != k
    ensures Apart(Addr(bs, i), Addr(bs, k))
    ensures i > k ==> Addr(bs, k) + HEADER + bs[k].size <= Addr(bs, i)
    ensures i < k ==> Addr(bs, i) + HEADER + bs[i].size <= Addr(bs, k)
  {
    BlocksDisjoint(bs, i, k);
    BlocksDisjoint(bs, k, i);
  }

  /** What heap_split_block does to the headers: block at a, new block at n, block after at b. */
  ghost predicate SplitHeaders(h: Reader, h': Reader, a: nat, req: nat, base: nat) {
    var n, b := a + HEADER + req, a + HEADER + h(a).size;
    && req + HEADER <= h(a).size
    && h'(a) == h(a).(size := req, next := base + n)
    && h'(n) == Header(MAGIC, h(a).size - req - HEADER, true, base + a, h(a).next)
    && (h(a).next != 0 ==> h'(b) == h(b).(previous := base + n))
    && OtherHeadersKept(h, h', a, n, b)
  }

  lemma SplitLists(h: Reader, h': Reader, bs: Blocks, k: nat, req: nat, base: nat)
    requires Lists(h, bs, base) && 0 < base && k < |bs| && req <= bs[k].size && Splits(bs, k, req)
    requires SplitHeaders(h, h', Addr(bs, k), req, base)
    ensures Lists(h', Split(bs, k, req), base)
  {
    SplitShifted(bs, k, req);
    SplitListsAs(h, h', bs, Split(bs, k, req), k, req, base);
  }

  lemma SplitListsAs(h: Reader, h': Reader, bs: Blocks, cs: Blocks, k: nat, req: nat, base: nat)
    requires Lists(h, bs, base) && 0 < base && k < |bs| && Splits(bs, k, req)
    requires Tiles(cs) && Shifted(bs, cs, k, k + 1, k + 2)
    requires cs[k] == Block(req, bs[k].free) && cs[k + 1] == Block(bs[k].size - req - HEADER, true)
    requires SplitHeaders(h, h', Addr(bs, k), req, base)
    ensures Lists(h', cs, base)
  {
    assert h(Addr(bs, k)) == HeaderFor(bs, k, base);
    SplitKept(h, h', bs, k, req, base);
    SplitInside(h, h', bs, cs, k, req, base);
    ShiftLists(h, h', bs, cs, k, k + 1, k + 2, base);
  }

  lemma SplitInside(h: Reader, h': Reader, bs: Blocks, cs: Blocks, k: nat, req: nat, base: nat)
    requires k < |bs| && h(Addr(bs, k)) == HeaderFor(bs, k, base) && Shifted(bs, cs, k, k + 1, k + 2)
    requires cs[k] == Block(req, bs[k].free) && req + HEADER <= bs[k].size
    requires cs[k + 1] == Block(bs[k].size - req - HEADER, true)
    requires SplitHeaders(h, h', Addr(bs, k), req, base)
    ensures NewInside(h', cs, k, k + 2, base) && Addr(cs, k + 1) == Addr(bs, k) + HEADER + req
    ensures Addr(bs, k + 1) == Addr(bs, k) + HEADER + bs[k].size
  {
    SplitMiddle(bs, cs, k, req, base);
  }

  lemma SplitKept(h: Reader, h': Reader, bs: Blocks, k: nat, req: nat, base: nat)
    requires Tiles(bs) && k < |bs| && Splits(bs, k, req) && h(Addr(bs, k)).size == bs[k].size
    requires SplitHeaders(h, h', Addr(bs, k), req, base)
    ensures KeptOutside(h, h', bs, k, k + 1)
  {
    forall i | 0 <= i < |bs| && (i < k || k + 1 < i)
      ensures h'(Addr(bs, i)) == h(Addr(bs, i))
    {
      OthersApart(bs, k, i);
      if k + 1 < i { OthersApart(bs, k + 1, i); }
    }
  }

  lemma SplitMiddle(bs: Blocks, cs: Blocks, k: nat, req: nat, base: nat)
    requires k < |bs| && Shifted(bs, cs, k, k + 1, k + 2) && req + HEADER <= bs[k].size
    requires cs[k] == Block(req, bs[k].free) && cs[k + 1] == Block(bs[k].size - req - HEADER, true)
    ensures Addr(cs, k) == Addr(bs, k) && Addr(cs, k + 1) == Addr(bs, k) + HEADER + req
    ensures Addr(bs, k + 1) == Addr(bs, k) + HEADER + bs[k].size
    ensures HeaderFor(cs, k, base) == HeaderFor(bs, k, base).(size := req, next := base + Addr(cs, k + 1))
    ensures HeaderFor(cs, k + 1, base)
            == Header(MAGIC, bs[k].size - req - HEADER, true, base + Addr(bs, k), NextPtr(bs, k, base))
  {
  }

  /** What heap_merge_next does to the headers: block at a, absorbed block at n, block after at b. */
  ghost predicate MergeHeaders(h: Reader, h': Reader, a: nat, base: nat) {
    var n := a + HEADER + h(a).size;
    var b := n + HEADER + h(n).size;
    && h'(a) == h(a).(size := h(a).size + HEADER + h(n).size, next := h(n).next)
    && (h(n).next != 0 ==> h'(b) == h(b).(previous := base + a))
    && OtherHeadersKept(h, h', a, n, b)
  }

  lemma MergeLists(h: Reader, h': Reader, bs: Blocks, k: nat, base: nat)
    requires Lists(h, bs, base) && 0 < base && Merges(bs, k)
    requires MergeHeaders(h, h', Addr(bs, k), base)
    ensures Lists(h', MergeNext(bs, k), base)
  {
    MergeShifted(bs, k);
    MergeListsAs(h, h', bs, MergeNext(bs, k), k, base);
  }

  lemma MergeListsAs(h: Reader, h': Reader, bs: Blocks, cs: Blocks, k: nat, base: nat)
    requires Lists(h, bs, base) && 0 < base && Merges(bs, k)
    requires Tiles(cs) && Shifted(bs, cs, k, k + 2, k + 1) && cs[k] == Joined(bs, k)
    requires MergeHeaders(h, h', Addr(bs, k), base)
    ensures Lists(h', cs, base)
  {
    assert h(Addr(bs, k)) == HeaderFor(bs, k, base);
    assert h(Addr(bs, k + 1)) == HeaderFor(bs, k + 1, base);
    MergeMiddle(bs, cs, k, base);
    MergeKept(h, h', bs, k, base);
    assert NewInside(h', cs, k, k + 1, base);
    ShiftLists(h, h', bs, cs, k, k + 2, k + 1, base);
  }

  lemma MergeKept(h: Reader, h': Reader, bs: Blocks, k: nat, base: nat)
    requires Tiles(bs) && Merges(bs, k)
    requires Addr(bs, k + 1) == Addr(bs, k) + HEADER + bs[k].size && Addr(bs, k + 2) == Addr(bs, k + 1) + HEADER + bs[k + 1].size
    requires h(Addr(bs, k)).size == bs[k].size && h(Addr(bs, k + 1)).size == bs[k + 1].size
    requires MergeHeaders(h, h', Addr(bs, k), base)
    ensures KeptOutside(h, h', bs, k, k + 2)
  {
    forall i | 0 <= i < |bs| && (i < k || k + 2 < i)
      ensures h'(Addr(bs, i)) == h(Addr(bs, i))
    {
      OthersApart(bs, k, i);
      OthersApart(bs, k + 1, i);
      if k + 2 < i { OthersApart(bs, k + 2, i); }
    }
  }

  lemma MergeMiddle(bs: Blocks, cs: Blocks, k: nat, base: nat)
    requires Merges(bs, k) && Shifted(bs, cs, k, k + 2, k + 1) && cs[k] == Joined(bs, k)
    ensures Addr(cs, k) == Addr(bs, k) && Addr(bs, k + 1) == Addr(bs, k) + HEADER + bs[k].size
    ensures Addr(bs, k + 2) == Addr(bs, k + 1) + HEADER + bs[k + 1].size
    ensures HeaderFor(cs, k, base)
            == HeaderFor(bs, k, base).(size := Joined(bs, k).size, next := NextPtr(bs, k + 1, base))
  {
  }

  lemma MarkLists(h: Reader, h': Reader, bs: Blocks, k: nat, free: bool, base: nat)
    requires Lists(h, bs, base) && k < |bs|
    requires h'(Addr(bs, k)) == h(Addr(bs, k)).(free := free)
    requires forall x {:trigger h'(x)} :: Apart(x, Addr(bs, k)) ==> h'(x) == h(x)
    ensures Lists(h', SetFree(bs, k, free), base)
  {
    SetFreeShifted(bs, k, free);
    MarkListsAs(h, h', bs, SetFree(bs, k, free), k, free, base);
  }

  lemma MarkListsAs(h: Reader, h': Reader, bs: Blocks, cs: Blocks, k: nat, free: bool, base: nat)
    requires Lists(h, bs, base) && k < |bs|
    requires Tiles(cs) && Shifted(bs, cs, k, k + 1, k + 1) && cs[k] == bs[k].(free := free)
    requires h'(Addr(bs, k)) == h(Addr(bs, k)).(free := free)
    requires forall x {:trigger h'(x)} :: Apart(x, Addr(bs, k)) ==> h'(x) == h(x)
    ensures Lists(h', cs, base)
  {
    assert h(Addr(bs, k)) == HeaderFor(bs, k, base);
    MarkMiddle(bs, cs, k, free, base);
    MarkKept(h, h', bs, k);
    assert NewInside(h', cs, k, k + 1, base);
    if k + 1 < |bs| {
      assert h(Addr(bs, k + 1)) == HeaderFor(bs, k + 1, base);
      assert h'(Addr(bs, k + 1)) == h(Addr(bs, k + 1));
    }
    ShiftLists(h, h', bs, cs, k, k + 1, k + 1, base);
  }

  lemma MarkMiddle(bs: Blocks, cs: Blocks, k: nat, free: bool, base: nat)
    requires k < |bs| && Shifted(bs, cs, k, k + 1, k + 1) && cs[k] == bs[k].(free := free)
    ensures Addr(cs, k) == Addr(bs, k)
    ensures HeaderFor(cs, k, base) == HeaderFor(bs, k, base).(free := free)
  {
  }

  lemma MarkKept(h: Reader, h': Reader, bs: Blocks, k: nat)
    requires Tiles(bs) && k < |bs|
    requires forall x {:trigger h'(x)} :: Apart(x, Addr(bs, k)) ==> h'(x) == h(x)
    ensures KeptOutside(h, h', bs, k, k)
  {
    forall i | 0 <= i < |bs| && i != k
      ensures h'(Addr(bs, i)) == h(Addr(bs, i))
    {
      OthersApart(bs, k, i);
    }
  }

  // ----------------------------------------------------------------
  // Single stores
  // ----------------------------------------------------------------

  /** One header was rewritten; headers apart from it read as before. */
  ghost predicate Rewritten(h: Reader, h': Reader, a: nat, v: Header) {
    && h'(a) == v
    && forall x {:trigger h'(x)} :: Apart(x, a) ==> h'(x) == h(x)
  }

  /** The store to next->previous, when there is a next block. */
  ghost predicate LinkedBack(h: Reader, h': Reader, next: nat, v: nat, base: nat) {
    if next == 0 then h' == h else next >= base && Rewritten(h, h', next - base, h(next - base).(previous := v))
  }

  /** The stores of heap_split_block: new header at n, back link at b, next and size at a. */
  lemma SplitSteps(h: Reader, h1: Reader, h2: Reader, h3: Reader, h': Reader, a: nat, req: nat, base: nat)
    requires req + HEADER + ALIGNMENT < h(a).size
    requires var n, b := a + HEADER + req, a + HEADER + h(a).size;
             && Rewritten(h, h1, n, Header(MAGIC, h(a).size - req - HEADER, true, base + a, h(a).next))
             && LinkedBack(h1, h2, h(a).next, base + n, base) && (h(a).next != 0 ==> h(a).next == base + b)
             && Rewritten(h2, h3, a, h2(a).(next := base + n))
             && Rewritten(h3, h', a, h3(a).(size := req))
    ensures SplitHeaders(h, h', a, req, base)
  {
  }

  /** The stores of heap_merge_next: size and next at a, back link at b, magic at n. */
  lemma MergeSteps(h: Reader, h1: Reader, h2: Reader, h3: Reader, h': Reader, a: nat, base: nat)
    requires var n := a + HEADER + h(a).size; var b := n + HEADER + h(n).size;
             && Rewritten(h, h1, a, h(a).(size := h(a).size + HEADER + h(n).size))
             && Rewritten(h1, h2, a, h1(a).(next := h(n).next))
             && LinkedBack(h2, h3, h(n).next, base + a, base) && (h(n).next != 0 ==> h(n).next == base + b)
             && Rewritten(h3, h', n, h3(n).(magic := 0))
    ensures MergeHeaders(h, h', a, base)
    ensures h'(a + HEADER + h(a).size).magic == 0
  {
  }
}
