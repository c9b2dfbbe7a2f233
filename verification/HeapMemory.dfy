/**
  The heap arena as bytes. A header occupies 20 bytes: magic, size, free, previous, next.
 */
module HeapMemory {
  import opened Basics
  import opened HeapBlocks
  import opened HeapLinks

  type Memory = m: seq<byte> | |m| == ARENA witness seq(ARENA, _ => 0)

  function HeaderAt(m: Memory, a: nat): Header
    requires a + HEADER <= ARENA
  {
    Header(U32(m, a), U32(m, a + 4), m[a + 8] != 0, U32(m, a + 12), U32(m, a + 16))
  }

  /** h says what the code finds in m when it takes an offset for a block. */
  ghost predicate Reads(h: Reader, m: Memory) {
    && (forall a: nat {:trigger HeaderAt(m, a)} :: a + HEADER <= ARENA ==> h(a) == HeaderAt(m, a))
    && (forall a: nat {:trigger h(a)} :: a + HEADER > ARENA ==> h(a) == Header(0, 0, false, 0, 0))
  }

  lemma Readable(m: Memory)
    ensures exists h :: Reads(h, m)
  {
    var h: Reader := (a: nat) => if a + HEADER <= ARENA then HeaderAt(m, a) else Header(0, 0, false, 0, 0);
    assert Reads(h, m);
  }

  ghost function ReaderOf(m: Memory): Reader {
    Readable(m);
    var h :| Reads(h, m);
    h
  }

  /** Bytes from..to are the same in both memories. */
  predicate SameOn(m: Memory, m': Memory, from: nat, to: nat) {
    forall x {:trigger Kept(m, m', x)} :: from <= x < to && x < ARENA ==> Kept(m, m', x)
  }

  predicate Kept(m: Memory, m': Memory, x: nat)
    requires x < ARENA
  {
    m'[x] == m[x]
  }

  lemma SameSlice(m: Memory, m': Memory, from: nat, to: nat)
    requires SameOn(m, m', from, to) && from <= to <= ARENA
    ensures m'[from..to] == m[from..to]
  {
    forall i | 0 <= i < to - from
      ensures m'[from..to][i] == m[from..to][i]
    {
      assert Kept(m, m', from + i);
    }
  }

  lemma SameTrans(m: Memory, m1: Memory, m2: Memory, from: nat, to: nat)
    requires SameOn(m, m1, from, to) && SameOn(m1, m2, from, to)
    ensures SameOn(m, m2, from, to)
  {
    forall x | from <= x < to && x < ARENA
      ensures Kept(m, m2, x)
    {
      assert Kept(m, m1, x) && Kept(m1, m2, x);
    }
  }

  predicate Within(x: nat, a: nat) {
    a <= x < a + HEADER
  }

  /** Only bytes of the headers at a, n and b may differ. */
  predicate OnlyHeaders(m: Memory, m': Memory, a: nat, n: nat, b: nat) {
    forall x {:trigger Kept(m, m', x)} :: 0 <= x < ARENA && !Within(x, a) && !Within(x, n) && !Within(x, b) ==> Kept(m, m', x)
  }

  /** Stores into the header at a. */
  lemma OneHeader(m: Memory, m': Memory, a: nat, v: Header)
    requires a + HEADER <= ARENA && HeaderAt(m', a) == v
    requires forall x :: 0 <= x < ARENA && !Within(x, a) ==> m'[x] == m[x]
    ensures Edited(m, m', a, v)
  {
    forall x: nat | Apart(x, a)
      ensures ReaderOf(m')(x) == ReaderOf(m)(x)
    {
      if x + HEADER <= ARENA {
        assert HeaderAt(m', x) == HeaderAt(m, x);
      }
    }
  }

  lemma EditedAgain(m: Memory, m1: Memory, m2: Memory, a: nat, v1: Header, v2: Header)
    requires Edited(m, m1, a, v1) && Edited(m1, m2, a, v2)
    ensures Edited(m, m2, a, v2)
  {
    OnlyTrans(m, m1, m2, a, a, a, a);
    assert forall x: nat :: Apart(x, a) ==> ReaderOf(m2)(x) == ReaderOf(m1)(x) == ReaderOf(m)(x);
  }

  lemma OnlyTrans(m: Memory, m1: Memory, m2: Memory, a: nat, n: nat, b: nat, c: nat)
    requires OnlyHeaders(m, m1, a, n, b) && OnlyHeaders(m1, m2, c, c, c) && c in {a, n, b}
    ensures OnlyHeaders(m, m2, a, n, b)
  {
    forall x | 0 <= x < ARENA && !Within(x, a) && !Within(x, n) && !Within(x, b)
      ensures Kept(m, m2, x)
    {
      assert Kept(m, m1, x) && Kept(m1, m2, x);
    }
  }

  /** The four stores of a split or a merge: into the headers c, b (or none there), d and e. */
  lemma OnlyChain(m0: Memory, m1: Memory, m2: Memory, m3: Memory, m4: Memory, a: nat, n: nat, b: nat, c: nat, d: nat, e: nat, f: nat)
    requires c in {a, n, b} && d in {a, n, b} && e in {a, n, b} && f in {a, n, b}
    requires OnlyHeaders(m0, m1, c, c, c) && OnlyHeaders(m1, m2, d, d, d)
    requires OnlyHeaders(m2, m3, e, e, e) && OnlyHeaders(m3, m4, f, f, f)
    ensures OnlyHeaders(m0, m4, a, n, b)
  {
    assert OnlyHeaders(m0, m1, a, n, b);
    OnlyTrans(m0, m1, m2, a, n, b, d);
    OnlyTrans(m0, m2, m3, a, n, b, e);
    OnlyTrans(m0, m3, m4, a, n, b, f);
  }

  /** The header at a now reads v, and nothing else has changed. */
  ghost predicate Edited(m: Memory, m': Memory, a: nat, v: Header) {
    Rewritten(ReaderOf(m), ReaderOf(m'), a, v) && OnlyHeaders(m, m', a, a, a)
  }

  /** if (next != NULL) next->previous = v */
  ghost predicate BackEdited(m: Memory, m': Memory, next: nat, v: nat, base: nat) {
    && LinkedBack(ReaderOf(m), ReaderOf(m'), next, v, base)
    && if next != 0 then next >= base && OnlyHeaders(m, m', next - base, next - base, next - base) else m' == m
  }

  /** The block after the one of size `size` at a: where h.next says, or there is none. */
  predicate NextIs(a: nat, size: nat, next: nat, base: nat) {
    && a + HEADER + size <= ARENA && next <= U32_MAX
    && (next != 0 ==> next == base + a + HEADER + size && a + HEADER + size + HEADER <= ARENA)
  }

  /** The header at a can be split after req bytes. */
  predicate CanSplit(m: Memory, a: nat, req: nat, base: nat) {
    && a + HEADER <= ARENA
    && var h := HeaderAt(m, a); req + HEADER + ALIGNMENT < h.size && NextIs(a, h.size, h.next, base)
  }

  /** The header at a has another behind it, which it can absorb. */
  predicate CanMerge(m: Memory, a: nat, base: nat) {
    && a + HEADER <= ARENA
    && var n := a + HEADER + HeaderAt(m, a).size;
       n + HEADER <= ARENA && var g := HeaderAt(m, n); NextIs(n, g.size, g.next, base)
  }

  lemma SplitStores(m0: Memory, m1: Memory, m2: Memory, m3: Memory, m4: Memory, a: nat, req: nat, base: nat)
    requires CanSplit(m0, a, req, base)
    requires var h, n := HeaderAt(m0, a), a + HEADER + req;
             && Edited(m0, m1, n, Header(MAGIC, h.size - req - HEADER, true, base + a, h.next))
             && BackEdited(m1, m2, h.next, base + n, base)
             && Edited(m2, m3, a, ReaderOf(m2)(a).(next := base + n))
             && Edited(m3, m4, a, ReaderOf(m3)(a).(size := req))
    ensures SplitHeaders(ReaderOf(m0), ReaderOf(m4), a, req, base)
    ensures OnlyHeaders(m0, m4, a, a + HEADER + req, a + HEADER + HeaderAt(m0, a).size)
  {
    SplitSteps(ReaderOf(m0), ReaderOf(m1), ReaderOf(m2), ReaderOf(m3), ReaderOf(m4), a, req, base);
    var n, b := a + HEADER + req, a + HEADER + HeaderAt(m0, a).size;
    OnlyBack(m1, m2, HeaderAt(m0, a).next, base + n, base, b);
    OnlyChain(m0, m1, m2, m3, m4, a, n, b, n, b, a, a);
  }

  /** What the stores of heap_merge_next at a have done. */
  ghost predicate MergeStored(m: Memory, m': Memory, a: nat, base: nat)
    requires CanMerge(m, a, base)
  {
    var n := a + HEADER + HeaderAt(m, a).size;
    && MergeHeaders(ReaderOf(m), ReaderOf(m'), a, base)
    && OnlyHeaders(m, m', a, n, n + HEADER + HeaderAt(m, n).size) && Forgotten(m', n)
  }

  /** The offset a is not taken for a block any more. */
  predicate Forgotten(m: Memory, a: nat) {
    a + HEADER <= ARENA && HeaderAt(m, a).magic == 0
  }

  lemma MergeStores(m0: Memory, m1: Memory, m2: Memory, m3: Memory, m4: Memory, a: nat, base: nat)
    requires CanMerge(m0, a, base)
    requires var h := HeaderAt(m0, a); var n := a + HEADER + h.size; var g := HeaderAt(m0, n);
             && Edited(m0, m1, a, ReaderOf(m0)(a).(size := h.size + HEADER + g.size))
             && Edited(m1, m2, a, ReaderOf(m1)(a).(next := g.next))
             && BackEdited(m2, m3, g.next, base + a, base)
             && Edited(m3, m4, n, ReaderOf(m3)(n).(magic := 0))
    ensures MergeStored(m0, m4, a, base)
  {
    MergeSteps(ReaderOf(m0), ReaderOf(m1), ReaderOf(m2), ReaderOf(m3), ReaderOf(m4), a, base);
    var n := a + HEADER + HeaderAt(m0, a).size;
    var b := n + HEADER + HeaderAt(m0, n).size;
    MergeOnly(m0, m1, m2, m3, m4, a, n, b, HeaderAt(m0, n).next, base);
  }

  lemma MergeOnly(m0: Memory, m1: Memory, m2: Memory, m3: Memory, m4: Memory, a: nat, n: nat, b: nat, next: nat, base: nat)
    requires OnlyHeaders(m0, m1, a, a, a) && OnlyHeaders(m1, m2, a, a, a)
    requires BackEdited(m2, m3, next, base + a, base) && (next != 0 ==> next == base + b)
    requires OnlyHeaders(m3, m4, n, n, n)
    ensures OnlyHeaders(m0, m4, a, n, b)
  {
    OnlyBack(m2, m3, next, base + a, base, b);
    OnlyChain(m0, m1, m2, m3, m4, a, n, b, a, a, b, n);
  }

  lemma OnlyBack(m: Memory, m': Memory, next: nat, v: nat, base: nat, b: nat)
    requires BackEdited(m, m', next, v, base) && (next != 0 ==> next == base + b)
    ensures OnlyHeaders(m, m', b, b, b)
  {
  }

  // ----------------------------------------------------------------
  // Payloads
  // ----------------------------------------------------------------

  /** The payload bytes of these live blocks are the same in both memories. */
  ghost predicate SameLive(m: Memory, m': Memory, live: map<nat, nat>) {
    forall off :: off in live ==> SameOn(m, m', off + HEADER, off + HEADER + live[off])
  }

  /** What c says about the block at off. */
  ghost predicate TellsOf(c: map<nat, seq<byte>>, m: Memory, live: map<nat, nat>, off: nat) {
    && (off in c <==> off in live && off + HEADER + live[off] <= ARENA)
    && (off in c ==> c[off] == m[off + HEADER..off + HEADER + live[off]])
  }

  ghost predicate Tells(c: map<nat, seq<byte>>, m: Memory, live: map<nat, nat>) {
    forall off: nat {:trigger TellsOf(c, m, live, off)} :: TellsOf(c, m, live, off)
  }

  lemma Tellable(m: Memory, live: map<nat, nat>)
    ensures exists c :: Tells(c, m, live)
  {
    var c := map off | off in live && off + HEADER + live[off] <= ARENA :: m[off + HEADER..off + HEADER + live[off]];
    assert Tells(c, m, live);
  }

  /** What is stored in each live block, by header offset. */
  ghost function Contents(m: Memory, live: map<nat, nat>): map<nat, seq<byte>> {
    Tellable(m, live);
    var c :| Tells(c, m, live);
    c
  }

  lemma ContentsAt(m: Memory, live: map<nat, nat>, off: nat)
    ensures TellsOf(Contents(m, live), m, live, off)
  {
  }

  predicate Inside(live: map<nat, nat>) {
    forall off :: off in live ==> off + HEADER + live[off] <= ARENA
  }

  lemma LiveInside(bs: Blocks)
    requires Tiles(bs)
    ensures Inside(Live(bs, 0))
  {
    forall off | off in Live(bs, 0)
      ensures off + HEADER + Live(bs, 0)[off] <= ARENA
    {
      LiveRange(bs, 0, off);
    }
  }

  lemma ContentsLength(m: Memory, live: map<nat, nat>, a: nat)
    requires Inside(live) && a in live
    ensures a in Contents(m, live) && |Contents(m, live)[a]| == live[a]
  {
    ContentsAt(m, live, a);
  }

  /** Contents after a change that concerns only the block at `off`. */
  lemma ContentsUpdate(m: Memory, m': Memory, live: map<nat, nat>, live': map<nat, nat>, off: nat)
    requires live' - {off} == live - {off} && SameLive(m, m', live - {off})
    ensures Contents(m', live') - {off} == Contents(m, live) - {off}
  {
    forall o | o != off
      ensures o in live <==> o in live'
      ensures o in live ==> live'[o] == live[o]
    {
      assert o in live <==> o in live - {off};
      assert o in live' <==> o in live' - {off};
      assert o in live ==> (live - {off})[o] == live[o] && (live' - {off})[o] == live'[o];
    }
    var c, c' := Contents(m, live), Contents(m', live');
    forall o: nat | o != off
      ensures o in c <==> o in c'
      ensures o in c ==> c'[o] == c[o]
    {
      ContentsAt(m, live, o);
      ContentsAt(m', live', o);
      if o in c {
        assert (live - {off})[o] == live[o];
        SameSlice(m, m', o + HEADER, o + HEADER + live[o]);
      }
    }
  }

  /** A window that covers no payload byte of block j. */
  predicate Clear(bs: Blocks, j: nat, w: nat)
    requires j < |bs|
  {
    w + HEADER <= Addr(bs, j) + HEADER || Addr(bs, j) + HEADER + bs[j].size <= w
  }

  lemma Spared(m: Memory, m': Memory, bs: Blocks, k: nat, n: nat, b: nat)
    requires Tiles(bs) && k < |bs| && OnlyHeaders(m, m', Addr(bs, k), n, b)
    requires forall j {:trigger Clear(bs, j, n)} :: 0 <= j < |bs| && j != k ==> Clear(bs, j, n) && Clear(bs, j, b)
    ensures SameLive(m, m', Live(bs, 0) - {Addr(bs, k)})
  {
    forall off | off in Live(bs, 0) - {Addr(bs, k)}
      ensures SameOn(m, m', off + HEADER, off + HEADER + (Live(bs, 0) - {Addr(bs, k)})[off])
    {
      var j := LiveIndex(bs, 0, off);
      assert Clear(bs, j, n);
      BlocksDisjoint(bs, j, k);
      BlocksDisjoint(bs, k, j);
    }
  }

  lemma SplitSpares(m: Memory, m': Memory, bs: Blocks, k: nat, n: nat)
    requires Tiles(bs) && k < |bs| && Addr(bs, k) + HEADER <= n && n + HEADER <= Addr(bs, k + 1)
    requires OnlyHeaders(m, m', Addr(bs, k), n, Addr(bs, k + 1))
    ensures SameLive(m, m', Live(bs, 0) - {Addr(bs, k)})
  {
    var b := Addr(bs, k + 1);
    forall j | 0 <= j < |bs| && j != k
      ensures Clear(bs, j, n) && Clear(bs, j, b)
    {
      AddrNext(bs, k);
      BlocksDisjoint(bs, j, k);
      BlocksDisjoint(bs, k, j);
      if k + 1 < |bs| { BlocksDisjoint(bs, j, k + 1); BlocksDisjoint(bs, k + 1, j); }
    }
    Spared(m, m', bs, k, n, Addr(bs, k + 1));
  }

  lemma MergeSpares(m: Memory, m': Memory, bs: Blocks, k: nat)
    requires Tiles(bs) && k + 1 < |bs|
    requires OnlyHeaders(m, m', Addr(bs, k), Addr(bs, k + 1), Addr(bs, k + 2))
    ensures SameLive(m, m', Live(bs, 0) - {Addr(bs, k)})
  {
    var n, b := Addr(bs, k + 1), Addr(bs, k + 2);
    forall j | 0 <= j < |bs| && j != k
      ensures Clear(bs, j, n) && Clear(bs, j, b)
    {
      BlocksDisjoint(bs, j, k + 1);
      BlocksDisjoint(bs, k + 1, j);
      AddrMonotone(bs, if j < k + 2 then j else k, k + 2);
      if k + 2 < j { AddrMonotone(bs, k + 2, j); }
    }
    Spared(m, m', bs, k, Addr(bs, k + 1), Addr(bs, k + 2));
  }

  lemma MarkSpares(m: Memory, m': Memory, bs: Blocks, k: nat)
    requires Tiles(bs) && k < |bs| && OnlyHeaders(m, m', Addr(bs, k), Addr(bs, k), Addr(bs, k))
    ensures SameLive(m, m', Live(bs, 0) - {Addr(bs, k)})
  {
    var n := Addr(bs, k);
    forall j | 0 <= j < |bs| && j != k
      ensures Clear(bs, j, n)
    {
      BlocksDisjoint(bs, j, k);
      BlocksDisjoint(bs, k, j);
    }
    Spared(m, m', bs, k, n, n);
  }

  // ----------------------------------------------------------------
  // Changes that concern one block
  // ----------------------------------------------------------------

  /** The block at a may have changed in any way; every other live block is where and what it was. */
  ghost predicate OthersKept(m: Memory, bs: Blocks, m': Memory, bs': Blocks, a: nat) {
    && Live(bs', 0) - {a} == Live(bs, 0) - {a}
    && SameLive(m, m', Live(bs, 0) - {a})
  }

  lemma OthersContents(m: Memory, bs: Blocks, m': Memory, bs': Blocks, a: nat)
    requires OthersKept(m, bs, m', bs', a)
    ensures Contents(m', Live(bs', 0)) - {a} == Contents(m, Live(bs, 0)) - {a}
  {
    ContentsUpdate(m, m', Live(bs, 0), Live(bs', 0), a);
  }

  /** Only payload bytes of block k differ. */
  predicate OnlyPayload(m: Memory, m': Memory, bs: Blocks, k: nat)
    requires k < |bs|
  {
    forall x :: 0 <= x < ARENA && !(Addr(bs, k) + HEADER <= x < Addr(bs, k) + HEADER + bs[k].size) ==> m'[x] == m[x]
  }

  lemma PayloadLists(m: Memory, m': Memory, bs: Blocks, k: nat, base: nat)
    requires Holds(m, bs, base) && k < |bs| && OnlyPayload(m, m', bs, k)
    ensures Became(m, bs, m', bs, Addr(bs, k), base)
  {
    forall i | 0 <= i < |bs|
      ensures ReaderOf(m')(Addr(bs, i)) == HeaderFor(bs, i, base)
    {
      assert ReaderOf(m)(Addr(bs, i)) == HeaderFor(bs, i, base);
      BlocksDisjoint(bs, i, k);
      BlocksDisjoint(bs, k, i);
      assert HeaderAt(m', Addr(bs, i)) == HeaderAt(m, Addr(bs, i));
    }
    PayloadSpares(m, m', bs, k);
  }

  lemma PayloadSpares(m: Memory, m': Memory, bs: Blocks, k: nat)
    requires Tiles(bs) && k < |bs| && OnlyPayload(m, m', bs, k)
    ensures OthersKept(m, bs, m', bs, Addr(bs, k))
  {
    forall off | off in Live(bs, 0) - {Addr(bs, k)}
      ensures SameOn(m, m', off + HEADER, off + HEADER + (Live(bs, 0) - {Addr(bs, k)})[off])
    {
      var j := LiveIndex(bs, 0, off);
      BlocksDisjoint(bs, j, k);
      BlocksDisjoint(bs, k, j);
    }
  }

  // ----------------------------------------------------------------
  // The three edits, on bytes
  // ----------------------------------------------------------------

  /** The headers found in m list bs. */
  ghost predicate Holds(m: Memory, bs: Blocks, base: nat) {
    Lists(ReaderOf(m), bs, base)
  }

  /** m' holds bs', and only the block at a differs from what bs and m had. */
  ghost predicate Became(m: Memory, bs: Blocks, m': Memory, bs': Blocks, a: nat, base: nat) {
    Holds(m', bs', base) && OthersKept(m, bs, m', bs', a)
  }

  lemma SplitEffect(m: Memory, m': Memory, bs: Blocks, k: nat, req: nat, base: nat)
    requires Holds(m, bs, base) && 0 < base && k < |bs| && req <= bs[k].size && Splits(bs, k, req)
    requires SplitHeaders(ReaderOf(m), ReaderOf(m'), Addr(bs, k), req, base)
    requires OnlyHeaders(m, m', Addr(bs, k), Addr(bs, k) + HEADER + req, Addr(bs, k + 1))
    ensures Became(m, bs, m', Split(bs, k, req), Addr(bs, k), base)
    ensures SameOn(m, m', Addr(bs, k) + HEADER, Addr(bs, k) + HEADER + req)
  {
    SplitLists(ReaderOf(m), ReaderOf(m'), bs, k, req, base);
    AddrNext(bs, k);
    SplitOthers(m, m', bs, k, req);
  }

  lemma SplitOthers(m: Memory, m': Memory, bs: Blocks, k: nat, req: nat)
    requires Tiles(bs) && k < |bs| && req <= bs[k].size && Splits(bs, k, req)
    requires OnlyHeaders(m, m', Addr(bs, k), Addr(bs, k) + HEADER + req, Addr(bs, k + 1))
    ensures OthersKept(m, bs, m', Split(bs, k, req), Addr(bs, k))
  {
    AddrNext(bs, k);
    SplitSpares(m, m', bs, k, Addr(bs, k) + HEADER + req);
    SplitLive(bs, k, req);
  }

  lemma MergeEffect(m: Memory, m': Memory, bs: Blocks, k: nat, base: nat)
    requires Holds(m, bs, base) && 0 < base && Merges(bs, k)
    requires CanMerge(m, Addr(bs, k), base) && MergeStored(m, m', Addr(bs, k), base)
    ensures Became(m, bs, m', MergeNext(bs, k), Addr(bs, k), base)
    ensures SameOn(m, m', Addr(bs, k) + HEADER, Addr(bs, k) + HEADER + bs[k].size)
    ensures Forgotten(m', Addr(bs, k + 1))
  {
    MergeAt(m, m', bs, k, base);
    MergeLists(ReaderOf(m), ReaderOf(m'), bs, k, base);
    MergeOthers(m, m', bs, k);
  }

  /** Where the stores of heap_merge_next went. */
  lemma MergeAt(m: Memory, m': Memory, bs: Blocks, k: nat, base: nat)
    requires Holds(m, bs, base) && Merges(bs, k)
    requires CanMerge(m, Addr(bs, k), base) && MergeStored(m, m', Addr(bs, k), base)
    ensures MergeHeaders(ReaderOf(m), ReaderOf(m'), Addr(bs, k), base)
    ensures OnlyHeaders(m, m', Addr(bs, k), Addr(bs, k + 1), Addr(bs, k + 2)) && Forgotten(m', Addr(bs, k + 1))
    ensures Addr(bs, k + 1) == Addr(bs, k) + HEADER + bs[k].size && Addr(bs, k + 1) + HEADER <= Addr(bs, k + 2)
  {
    HeaderRead(m, bs, k, base);
    HeaderRead(m, bs, k + 1, base);
  }

  lemma MergeOthers(m: Memory, m': Memory, bs: Blocks, k: nat)
    requires Tiles(bs) && Merges(bs, k)
    requires OnlyHeaders(m, m', Addr(bs, k), Addr(bs, k + 1), Addr(bs, k + 2))
    ensures OthersKept(m, bs, m', MergeNext(bs, k), Addr(bs, k))
  {
    MergeSpares(m, m', bs, k);
    MergeLive(bs, k);
  }

  lemma MarkEffect(m: Memory, m': Memory, bs: Blocks, k: nat, free: bool, base: nat)
    requires Holds(m, bs, base) && k < |bs|
    requires Rewritten(ReaderOf(m), ReaderOf(m'), Addr(bs, k), ReaderOf(m)(Addr(bs, k)).(free := free))
    requires OnlyHeaders(m, m', Addr(bs, k), Addr(bs, k), Addr(bs, k))
    ensures Became(m, bs, m', SetFree(bs, k, free), Addr(bs, k), base)
    ensures SameOn(m, m', Addr(bs, k) + HEADER, Addr(bs, k) + HEADER + bs[k].size)
  {
    MarkLists(ReaderOf(m), ReaderOf(m'), bs, k, free, base);
    MarkOthers(m, m', bs, k, free);
  }

  lemma MarkOthers(m: Memory, m': Memory, bs: Blocks, k: nat, free: bool)
    requires Tiles(bs) && k < |bs|
    requires OnlyHeaders(m, m', Addr(bs, k), Addr(bs, k), Addr(bs, k))
    ensures OthersKept(m, bs, m', SetFree(bs, k, free), Addr(bs, k))
  {
    MarkSpares(m, m', bs, k);
    SetFreeLive(bs, k, free);
  }

  lemma BecameSame(m: Memory, bs: Blocks, a: nat, base: nat)
    requires Holds(m, bs, base)
    ensures Became(m, bs, m, bs, a, base)
  {
  }

  lemma BecameTrans(m: Memory, bs: Blocks, m1: Memory, bs1: Blocks, m2: Memory, bs2: Blocks, a: nat, base: nat)
    requires Became(m, bs, m1, bs1, a, base) && Became(m1, bs1, m2, bs2, a, base)
    ensures Became(m, bs, m2, bs2, a, base)
  {
    var live := Live(bs, 0) - {a};
    forall off | off in live
      ensures SameOn(m, m2, off + HEADER, off + HEADER + live[off])
    {
      SameTrans(m, m1, m2, off + HEADER, off + HEADER + live[off]);
    }
  }

  /** Header k as the code reads it, and where it lies. */
  ghost predicate HeaderIs(m: Memory, bs: Blocks, k: nat, base: nat)
    requires k < |bs|
  {
    && Addr(bs, k) + HEADER + bs[k].size <= ARENA
    && Addr(bs, k + 1) == Addr(bs, k) + HEADER + bs[k].size
    && (k + 1 < |bs| ==> Addr(bs, k + 1) + HEADER <= ARENA)
    && HeaderAt(m, Addr(bs, k)) == HeaderFor(bs, k, base)
  }

  lemma HeaderRead(m: Memory, bs: Blocks, k: nat, base: nat)
    requires Holds(m, bs, base) && k < |bs|
    ensures HeaderIs(m, bs, k, base)
  {
    BlocksDisjoint(bs, k, k);
    if k + 1 < |bs| { BlocksDisjoint(bs, k + 1, k + 1); }
    assert ReaderOf(m)(Addr(bs, k)) == HeaderFor(bs, k, base);
  }

  lemma MergeAllowed(m: Memory, bs: Blocks, k: nat, base: nat)
    requires Holds(m, bs, base) && base + ARENA <= U32_MAX && Merges(bs, k)
    ensures CanMerge(m, Addr(bs, k), base)
  {
    HeaderRead(m, bs, k, base);
    HeaderRead(m, bs, k + 1, base);
  }

  /** Merging two free blocks concerns no live block, so it may be charged to any offset. */
  lemma FreeOthers(m: Memory, bs: Blocks, m': Memory, k: nat, a: nat)
    requires Tiles(bs) && k < |bs| && bs[k].free
    requires OthersKept(m, bs, m', MergeNext(bs, k), Addr(bs, k))
    ensures OthersKept(m, bs, m', MergeNext(bs, k), a)
  {
    MergeFreeLive(bs, k);
    LiveAt(bs, k);
    var live := Live(bs, 0) - {a};
    forall off | off in live
      ensures SameOn(m, m', off + HEADER, off + HEADER + live[off])
    {
      assert off in Live(bs, 0) - {Addr(bs, k)};
    }
  }

  lemma GivenContents(m: Memory, bs: Blocks, m': Memory, k: nat)
    requires Tiles(bs) && k < |bs| && !bs[k].free
    requires OthersKept(m, bs, m', Give(bs, k), Addr(bs, k))
    ensures Contents(m', Live(Give(bs, k), 0)) == Contents(m, Live(bs, 0)) - {Addr(bs, k)}
    ensures Addr(bs, k) !in Live(Give(bs, k), 0)
  {
    GiveLive(bs, k);
    OthersContents(m, bs, m', Give(bs, k), Addr(bs, k));
    NoContents(m', Live(Give(bs, k), 0), Addr(bs, k));
  }

  lemma TakenContents(m: Memory, bs: Blocks, m': Memory, k: nat, n: nat)
    requires Tiles(bs) && k < |bs| && FitsIn(bs[k], n)
    requires OthersKept(m, bs, m', Take(bs, k, n), Addr(bs, k))
    ensures var a, c, c' := Addr(bs, k), Contents(m, Live(bs, 0)), Contents(m', Live(Take(bs, k, n), 0));
            a !in c && c' - {a} == c && a in c' && |c'[a]| >= n
  {
    TakeLive(bs, k, n);
    LiveInside(Take(bs, k, n));
    OthersContents(m, bs, m', Take(bs, k, n), Addr(bs, k));
    NoContents(m, Live(bs, 0), Addr(bs, k));
    ContentsLength(m', Live(Take(bs, k, n), 0), Addr(bs, k));
  }

  lemma NoContents(m: Memory, live: map<nat, nat>, a: nat)
    requires a !in live
    ensures a !in Contents(m, live) && Contents(m, live) - {a} == Contents(m, live)
  {
    ContentsAt(m, live, a);
    var c := Contents(m, live);
    assert c - {a} == c;
  }

  lemma BackwardEffect(m: Memory, bs: Blocks, m': Memory, k: nat, base: nat)
    requires Tiles(bs) && 0 < k < |bs| && bs[k - 1].free
    requires Became(m, bs, m', MergeNext(bs, k - 1), Addr(bs, k - 1), base)
    ensures Became(m, bs, m', MergeNext(bs, k - 1), Addr(bs, k), base)
  {
    FreeOthers(m, bs, m', k - 1, Addr(bs, k));
  }

  /** root_memzero */
  function Zeroed(m: Memory, a: nat, n: nat): Memory {
    seq(ARENA, x requires 0 <= x < ARENA => if a <= x < a + n then 0 else m[x])
  }

  /** root_memcpy of n bytes from b to a turned m into m'. */
  predicate CopiedTo(m: Memory, m': Memory, a: nat, b: nat, n: nat)
    requires b + n <= ARENA
  {
    forall x {:trigger m'[x]} :: 0 <= x < ARENA ==> m'[x] == if a <= x < a + n then m[x - a + b] else m[x]
  }

  lemma ZeroedContents(m: Memory, bs: Blocks, a: nat, n: nat, base: nat)
    requires Holds(m, bs, base) && a in Live(bs, 0) && n <= Live(bs, 0)[a]
    ensures Holds(Zeroed(m, a + HEADER, n), bs, base)
    ensures var c, c' := Contents(m, Live(bs, 0)), Contents(Zeroed(m, a + HEADER, n), Live(bs, 0));
            c' - {a} == c - {a} && a in c' && |c'[a]| == Live(bs, 0)[a] && ZeroAt(c', a, n)
  {
    var k := LiveIndex(bs, 0, a);
    var m' := Zeroed(m, a + HEADER, n);
    LiveInside(bs);
    PayloadLists(m, m', bs, k, base);
    OthersContents(m, bs, m', bs, a);
    ContentsAt(m', Live(bs, 0), a);
  }

  /** Byte k of the payload at a becomes v. */
  function Poked(c: map<nat, seq<byte>>, a: nat, k: nat, v: byte): map<nat, seq<byte>>
    requires a in c && k < |c[a]|
  {
    var s: seq<byte> := c[a][k := v];
    c[a := s]
  }

  /** A store into byte k of a live payload. */
  lemma PokedContents(m: Memory, m': Memory, bs: Blocks, a: nat, k: nat, v: byte, base: nat)
    requires Holds(m, bs, base) && a in Live(bs, 0) && k < Live(bs, 0)[a] && a + HEADER + k < ARENA
    requires m' == m[a + HEADER + k := v]
    ensures Holds(m', bs, base)
    ensures var c := Contents(m, Live(bs, 0)); a in c && k < |c[a]| && Contents(m', Live(bs, 0)) == Poked(c, a, k, v)
  {
    var j := LiveIndex(bs, 0, a);
    LiveInside(bs);
    PayloadLists(m, m', bs, j, base);
    OthersContents(m, bs, m', bs, a);
    ContentsAt(m, Live(bs, 0), a);
    ContentsAt(m', Live(bs, 0), a);
    PokedMap(Contents(m, Live(bs, 0)), Contents(m', Live(bs, 0)), a, k, v);
  }

  lemma PokedMap(c: map<nat, seq<byte>>, c': map<nat, seq<byte>>, a: nat, k: nat, v: byte)
    requires a in c && a in c' && c' - {a} == c - {a} && k < |c[a]| && c'[a] == c[a][k := v]
    ensures c' == Poked(c, a, k, v)
  {
    forall o | o in c || o in c'
      ensures o in c && o in c' && (o != a ==> c'[o] == c[o])
    {
      assert o != a ==> (o in c <==> o in c - {a}) && (o in c' <==> o in c' - {a});
      assert o != a && o in c - {a} ==> (c' - {a})[o] == (c - {a})[o];
    }
  }

  // ----------------------------------------------------------------
  // Resizing, on payloads
  // ----------------------------------------------------------------

  /** The first n bytes of s, or all of them if fewer, start t. */
  predicate KeepsStart(s: seq<byte>, t: seq<byte>, n: nat) {
    forall i :: 0 <= i < n && i < |s| && i < |t| ==> t[i] == s[i]
  }

  /** The payload at `from` now lives at `to` with at least size bytes; all other payloads are untouched. */
  ghost predicate Resized(d: map<nat, seq<byte>>, d': map<nat, seq<byte>>, from: nat, to: nat, size: nat) {
    && from in d && to in d' && d' - {to} == d - {from}
    && |d'[to]| >= size && KeepsStart(d[from], d'[to], size)
  }

  /** A block resized where it is. */
  lemma ResizedInPlace(m: Memory, bs: Blocks, m': Memory, bs': Blocks, k: nat, n: nat, size: nat, base: nat)
    requires Holds(m, bs, base) && k < |bs| && Became(m, bs, m', bs', Addr(bs, k), base)
    requires !bs[k].free && k < |bs'| && !bs'[k].free && Addr(bs', k) == Addr(bs, k)
    requires size <= n <= bs'[k].size
    requires SameOn(m, m', Addr(bs, k) + HEADER, Addr(bs, k) + HEADER + if n < bs[k].size then n else bs[k].size)
    ensures Resized(Contents(m, Live(bs, 0)), Contents(m', Live(bs', 0)), Addr(bs, k), Addr(bs, k), size)
  {
    LiveHas(bs, k);
    LiveHas(bs', k);
    LiveInside(bs);
    LiveInside(bs');
    StartKept(m, m', Live(bs, 0), Live(bs', 0), Addr(bs, k), n, size);
  }

  lemma StartKept(m: Memory, m': Memory, live: map<nat, nat>, live': map<nat, nat>, a: nat, n: nat, size: nat)
    requires Inside(live) && Inside(live') && a in live && a in live' && size <= n <= live'[a]
    requires live' - {a} == live - {a} && SameLive(m, m', live - {a})
    requires SameOn(m, m', a + HEADER, a + HEADER + if n < live[a] then n else live[a])
    ensures Resized(Contents(m, live), Contents(m', live'), a, a, size)
  {
    ContentsUpdate(m, m', live, live', a);
    ContentsAt(m, live, a);
    ContentsAt(m', live', a);
    var s, t := Contents(m, live)[a], Contents(m', live')[a];
    forall i | 0 <= i < size && i < |s| && i < |t|
      ensures t[i] == s[i]
    {
      assert Kept(m, m', a + HEADER + i);
    }
  }

  /** Bytes copied into the payload of one live block from that of another. */
  lemma CopiedContents(m: Memory, m': Memory, bs: Blocks, to: nat, from: nat, n: nat, base: nat)
    requires Holds(m, bs, base) && to in Live(bs, 0) && from in Live(bs, 0) && to != from
    requires n <= Live(bs, 0)[to] && n <= Live(bs, 0)[from] && from + HEADER + n <= ARENA
    requires CopiedTo(m, m', to + HEADER, from + HEADER, n)
    ensures Holds(m', bs, base) && CopiedPayload(Contents(m, Live(bs, 0)), Contents(m', Live(bs, 0)), to, from, n)
  {
    var k := LiveIndex(bs, 0, to);
    LiveInside(bs);
    PayloadLists(m, m', bs, k, base);
    OthersContents(m, bs, m', bs, to);
    CopiedStart(m, m', Live(bs, 0), to, from, n);
  }

  lemma CopiedStart(m: Memory, m': Memory, live: map<nat, nat>, to: nat, from: nat, n: nat)
    requires Inside(live) && to in live && from in live && n <= live[to] && n <= live[from] && from + HEADER + n <= ARENA
    requires CopiedTo(m, m', to + HEADER, from + HEADER, n)
    ensures var c, c' := Contents(m, live), Contents(m', live);
            from in c && to in c && to in c' && |c'[to]| == |c[to]| && KeepsStart(c[from], c'[to], n)
  {
    ContentsAt(m, live, from);
    ContentsAt(m, live, to);
    ContentsAt(m', live, to);
  }

  ghost predicate CopiedPayload(c: map<nat, seq<byte>>, c': map<nat, seq<byte>>, to: nat, from: nat, n: nat) {
    && to in c && from in c && to in c' && c' - {to} == c - {to}
    && |c'[to]| == |c[to]| && KeepsStart(c[from], c'[to], n)
  }

  /** Two live payloads do not overlap. */
  lemma PayloadsDisjoint(bs: Blocks, x: nat, y: nat)
    requires Tiles(bs) && x in Live(bs, 0) && y in Live(bs, 0) && x != y
    ensures x + HEADER + Live(bs, 0)[x] <= y || y + HEADER + Live(bs, 0)[y] <= x
  {
    var i := LiveIndex(bs, 0, x);
    var j := LiveIndex(bs, 0, y);
    BlocksDisjoint(bs, i, j);
    BlocksDisjoint(bs, j, i);
  }

  /** Copy, then free: the payload at `from` has moved into the block at `to`. */
  ghost predicate Relocated(d: map<nat, seq<byte>>, d': map<nat, seq<byte>>, from: nat, to: nat, size: nat) {
    && from in d && to in d && to in d' && d' - {to} == d - {to} - {from}
    && |d'[to]| == |d[to]| && KeepsStart(d[from], d'[to], size)
  }

  lemma CopiedAndFreed(d: map<nat, seq<byte>>, d1: map<nat, seq<byte>>, d2: map<nat, seq<byte>>,
                       from: nat, to: nat, size: nat, n: nat)
    requires CopiedPayload(d, d1, to, from, n) && from != to && d2 == d1 - {from}
    requires n == if |d[from]| > size then size else |d[from]|
    ensures Relocated(d, d2, from, to, size)
  {
  }

  /** With a fresh block at `to` that makes a resize. */
  lemma Moved(d: map<nat, seq<byte>>, d1: map<nat, seq<byte>>, d2: map<nat, seq<byte>>, from: nat, to: nat, size: nat)
    requires from in d && Placed(d, d1, to, size) && Relocated(d1, d2, from, to, size)
    ensures Resized(d, d2, from, to, size)
  {
  }

  /** A new payload of at least size bytes at `to`, and nothing else. */
  ghost predicate Placed(d: map<nat, seq<byte>>, d1: map<nat, seq<byte>>, to: nat, size: nat) {
    to !in d && d1 - {to} == d && to in d1 && |d1[to]| >= size
  }

  /** The first n bytes of the payload at a are zero. */
  ghost predicate ZeroAt(d: map<nat, seq<byte>>, a: nat, n: nat) {
    a in d && forall i :: 0 <= i < n && i < |d[a]| ==> d[a][i] == 0
  }

  lemma PlacedThenZeroed(d: map<nat, seq<byte>>, d1: map<nat, seq<byte>>, d2: map<nat, seq<byte>>, a: nat, size: nat)
    requires Placed(d, d1, a, size) && d2 - {a} == d1 - {a} && a in d2 && |d2[a]| == |d1[a]|
    ensures Placed(d, d2, a, size)
  {
  }

  lemma StillThere(d: map<nat, seq<byte>>, d1: map<nat, seq<byte>>, to: nat, size: nat, a: nat)
    requires Placed(d, d1, to, size) && a in d
    ensures a in d1 && d1[a] == d[a] && a != to
  {
    assert a in d1 - {to};
  }
}
