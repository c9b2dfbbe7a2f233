/**
  root_malloc, root_calloc, root_free and root_realloc (source/kernel/heap.c), working
  on the bytes of the arena. `blocks` is the block list those bytes hold; what callers
  see is the map from live header offsets to payload bytes, `Data()`.
 */
module KernelHeap {
  import opened Basics
  import opened HeapBlocks
  import opened HeapLinks
  import opened HeapMemory
  import opened HeapRuns

  class Heap {
    const base: nat            // address of heap_memory
    const mem: array<byte>     // heap_memory
    var initialized: bool      // heap_initialized
    ghost var blocks: Blocks

    ghost predicate Shape()
    {
      mem.Length == ARENA && 0 < base && base + ARENA <= U32_MAX
    }

    function Bytes(): Memory
      requires mem.Length == ARENA
      reads mem
    {
      mem[..]
    }

    ghost predicate Valid()
      reads this, mem
    {
      Shape() && (initialized ==> Holds(Bytes(), blocks, base) && NoEmpty(blocks))
    }

    ghost predicate Ready()
      reads this, mem
    {
      Valid() && initialized
    }

    /** Payload bytes of every live block, by the offset of its header. */
    ghost function Data(): map<nat, seq<byte>>
      requires Ready()
      reads this, mem
    {
      Contents(Bytes(), Live(blocks, 0))
    }

    /** Data() has the live blocks, with all their bytes. */
    lemma DataAt(off: nat)
      requires Ready()
      ensures off in Data() <==> off in Live(blocks, 0)
      ensures off in Data() ==> |Data()[off]| == Live(blocks, 0)[off] && off + HEADER + |Data()[off]| <= ARENA
    {
      LiveInside(blocks);
      ContentsAt(Bytes(), Live(blocks, 0), off);
    }

    /** The pointer handed out for the block whose header is at offset off. */
    function Ptr(off: nat): nat {
      base + off + HEADER
    }

    /** heap_memory is in .bss: zero, and heap_init has not run. */
    constructor (base: nat)
      requires 0 < base && base + ARENA <= U32_MAX
      ensures Valid() && !initialized && this.base == base && fresh(mem)
    {
      this.base := base;
      mem := new byte[ARENA](_ => 0);
      initialized := false;
      blocks := [];
    }

    // ----------------------------------------------------------------
    // Header fields
    // ----------------------------------------------------------------

    method Write32(a: nat, v: nat)
      requires mem.Length == ARENA && a + 4 <= ARENA && v <= U32_MAX
      modifies mem
      ensures U32(Bytes(), a) == v
      ensures forall x :: 0 <= x < ARENA && !(a <= x < a + 4) ==> mem[x] == old(mem[x])
    {
      WordBytes(v);
      mem[a], mem[a + 1], mem[a + 2], mem[a + 3] := v % 256, v / 256 % 256, v / 0x1_0000 % 256, v / 0x100_0000;
    }

    method SetMagic(a: nat, v: nat)
      requires mem.Length == ARENA && a + HEADER <= ARENA && v <= U32_MAX
      modifies mem
      ensures Edited(old(Bytes()), Bytes(), a, ReaderOf(old(Bytes()))(a).(magic := v))
    {
      Write32(a, v);
      OneHeader(old(Bytes()), Bytes(), a, HeaderAt(old(Bytes()), a).(magic := v));
    }

    method SetSize(a: nat, v: nat)
      requires mem.Length == ARENA && a + HEADER <= ARENA && v <= U32_MAX
      modifies mem
      ensures Edited(old(Bytes()), Bytes(), a, ReaderOf(old(Bytes()))(a).(size := v))
    {
      Write32(a + 4, v);
      OneHeader(old(Bytes()), Bytes(), a, HeaderAt(old(Bytes()), a).(size := v));
    }

    method SetFreeFlag(a: nat, free: bool)
      requires mem.Length == ARENA && a + HEADER <= ARENA
      modifies mem
      ensures Edited(old(Bytes()), Bytes(), a, ReaderOf(old(Bytes()))(a).(free := free))
    {
      mem[a + 8] := if free then 1 else 0;
      OneHeader(old(Bytes()), Bytes(), a, HeaderAt(old(Bytes()), a).(free := free));
    }

    method SetPrevious(a: nat, v: nat)
      requires mem.Length == ARENA && a + HEADER <= ARENA && v <= U32_MAX
      modifies mem
      ensures Edited(old(Bytes()), Bytes(), a, ReaderOf(old(Bytes()))(a).(previous := v))
    {
      Write32(a + 12, v);
      OneHeader(old(Bytes()), Bytes(), a, HeaderAt(old(Bytes()), a).(previous := v));
    }

    method SetNext(a: nat, v: nat)
      requires mem.Length == ARENA && a + HEADER <= ARENA && v <= U32_MAX
      modifies mem
      ensures Edited(old(Bytes()), Bytes(), a, ReaderOf(old(Bytes()))(a).(next := v))
    {
      Write32(a + 16, v);
      OneHeader(old(Bytes()), Bytes(), a, HeaderAt(old(Bytes()), a).(next := v));
    }

    method WriteHeader(a: nat, h: Header)
      requires mem.Length == ARENA && a + HEADER <= ARENA
      requires h.magic <= U32_MAX && h.size <= U32_MAX && h.previous <= U32_MAX && h.next <= U32_MAX
      modifies mem
      ensures Edited(old(Bytes()), Bytes(), a, h)
    {
      ghost var m := Bytes();
      SetMagic(a, h.magic);
      ghost var m1, h1 := Bytes(), ReaderOf(m)(a).(magic := h.magic);
      SetSize(a, h.size);
      ghost var m2, h2 := Bytes(), h1.(size := h.size);
      EditedAgain(m, m1, m2, a, h1, h2);
      SetFreeFlag(a, h.free);
      ghost var m3, h3 := Bytes(), h2.(free := h.free);
      EditedAgain(m, m2, m3, a, h2, h3);
      SetPrevious(a, h.previous);
      ghost var m4, h4 := Bytes(), h3.(previous := h.previous);
      EditedAgain(m, m3, m4, a, h3, h4);
      SetNext(a, h.next);
      EditedAgain(m, m4, Bytes(), a, h4, h);
    }

    /** heap_init */
    method Init()
      requires Valid()
      modifies this, mem
      ensures Ready() && blocks == INITIAL && Data() == map[]
    {
      WriteHeader(0, Header(MAGIC, ARENA - HEADER, true, 0, 0));
      initialized := true;
      blocks := INITIAL;
      SpanOne(INITIAL[0]);
      assert INITIAL == [INITIAL[0]];
      assert ReaderOf(Bytes())(Addr(INITIAL, 0)) == HeaderFor(INITIAL, 0, base);
      LiveOne(INITIAL[0], 0);
      assert forall off :: off in Data() ==> TellsOf(Data(), Bytes(), map[], off);
    }

    // ----------------------------------------------------------------
    // Split, merge, mark
    // ----------------------------------------------------------------

    /** if (next != NULL) next->previous = v */
    method LinkBack(next: nat, v: nat)
      requires Shape() && v <= U32_MAX && (next != 0 ==> base <= next && next - base + HEADER <= ARENA)
      modifies mem
      ensures BackEdited(old(Bytes()), Bytes(), next, v, base)
    {
      if next != 0 {
        SetPrevious(next - base, v);
      }
    }

    /** The stores of heap_split_block, in the order of the source. */
    method StoreSplit(a: nat, req: nat)
      requires Shape() && CanSplit(Bytes(), a, req, base)
      modifies mem
      ensures SplitHeaders(ReaderOf(old(Bytes())), ReaderOf(Bytes()), a, req, base)
      ensures OnlyHeaders(old(Bytes()), Bytes(), a, a + HEADER + req, a + HEADER + HeaderAt(old(Bytes()), a).size)
    {
      var h := HeaderAt(Bytes(), a);
      var n := a + HEADER + req;
      ghost var m0 := Bytes();
      WriteHeader(n, Header(MAGIC, h.size - req - HEADER, true, base + a, h.next));
      ghost var m1 := Bytes();
      LinkBack(h.next, base + n);
      ghost var m2 := Bytes();
      SetNext(a, base + n);
      ghost var m3 := Bytes();
      SetSize(a, req);
      SplitStores(m0, m1, m2, m3, Bytes(), a, req, base);
    }

    /** The stores of heap_merge_next, in the order of the source. */
    method StoreMerge(a: nat)
      requires Shape() && CanMerge(Bytes(), a, base)
      modifies mem
      ensures MergeStored(old(Bytes()), Bytes(), a, base)
    {
      var h := HeaderAt(Bytes(), a);
      var n := a + HEADER + h.size;
      var g := HeaderAt(Bytes(), n);
      ghost var m0 := Bytes();
      SetSize(a, h.size + HEADER + g.size);
      ghost var m1 := Bytes();
      SetNext(a, g.next);
      ghost var m2 := Bytes();
      LinkBack(g.next, base + a);
      ghost var m3 := Bytes();
      SetMagic(n, 0);
      MergeStores(m0, m1, m2, m3, Bytes(), a, base);
    }

    /** heap_split_block on the block at offset a, which is block k. */
    method SplitBlock(a: nat, req: nat, ghost k: nat)
      requires Ready() && k < |blocks| && a == Addr(blocks, k) && 0 < req <= blocks[k].size
      modifies this`blocks, mem
      ensures Ready() && blocks == Split(old(blocks), k, req)
      ensures Became(old(Bytes()), old(blocks), Bytes(), blocks, a, base)
      ensures SameOn(old(Bytes()), Bytes(), a + HEADER, a + HEADER + req)
    {
      HeaderRead(Bytes(), blocks, k, base);
      ghost var m := Bytes();
      if HeaderAt(Bytes(), a).size <= req + HEADER + ALIGNMENT {
        return;
      }
      StoreSplit(a, req);
      SplitEffect(m, Bytes(), blocks, k, req, base);
      EditsNoEmpty(blocks, k, req, false);
      blocks := Split(blocks, k, req);
    }

    /** heap_merge_next on the block at offset a, which is block k. */
    method MergeNextBlock(a: nat, ghost k: nat)
      requires Ready() && k < |blocks| && a == Addr(blocks, k)
      modifies this`blocks, mem
      ensures Ready() && blocks == MergeNext(old(blocks), k)
      ensures Became(old(Bytes()), old(blocks), Bytes(), blocks, a, base)
      ensures SameOn(old(Bytes()), Bytes(), a + HEADER, a + HEADER + old(blocks)[k].size)
      ensures Merges(old(blocks), k) ==> Forgotten(Bytes(), Addr(old(blocks), k + 1))
    {
      var ok := NextIsFree(a, k);
      if ok {
        Absorb(a, k);
      } else {
        BecameSame(Bytes(), blocks, a, base);
      }
    }

    /** The guards of heap_merge_next. */
    method NextIsFree(a: nat, ghost k: nat) returns (ok: bool)
      requires Ready() && k < |blocks| && a == Addr(blocks, k)
      ensures ok == Merges(blocks, k)
    {
      HeaderRead(Bytes(), blocks, k, base);
      var next := HeaderAt(Bytes(), a).next;
      if next == 0 {
        return false;
      }
      HeaderRead(Bytes(), blocks, k + 1, base);
      ok := HeaderAt(Bytes(), next - base).magic == MAGIC && HeaderAt(Bytes(), next - base).free;
    }

    method Absorb(a: nat, ghost k: nat)
      requires Ready() && Merges(blocks, k) && a == Addr(blocks, k)
      modifies this`blocks, mem
      ensures Ready() && blocks == MergeNext(old(blocks), k)
      ensures Became(old(Bytes()), old(blocks), Bytes(), blocks, a, base)
      ensures SameOn(old(Bytes()), Bytes(), a + HEADER, a + HEADER + old(blocks)[k].size)
      ensures Forgotten(Bytes(), Addr(old(blocks), k + 1))
    {
      StoreAbsorb(a, k);
      EditsNoEmpty(blocks, k, 1, false);
      blocks := MergeNext(blocks, k);
    }

    method StoreAbsorb(a: nat, ghost k: nat)
      requires Shape() && Holds(Bytes(), blocks, base) && Merges(blocks, k) && a == Addr(blocks, k)
      modifies mem
      ensures Became(old(Bytes()), blocks, Bytes(), MergeNext(blocks, k), a, base)
      ensures SameOn(old(Bytes()), Bytes(), a + HEADER, a + HEADER + blocks[k].size)
      ensures Forgotten(Bytes(), Addr(blocks, k + 1))
    {
      MergeAllowed(Bytes(), blocks, k, base);
      ghost var m := Bytes();
      StoreMerge(a);
      MergeEffect(m, Bytes(), blocks, k, base);
    }

    /** block->free = free */
    method Mark(a: nat, free: bool, ghost k: nat)
      requires Ready() && k < |blocks| && a == Addr(blocks, k)
      modifies this`blocks, mem
      ensures Ready() && blocks == SetFree(old(blocks), k, free)
      ensures Became(old(Bytes()), old(blocks), Bytes(), blocks, a, base)
      ensures SameOn(old(Bytes()), Bytes(), a + HEADER, a + HEADER + old(blocks)[k].size)
    {
      HeaderRead(Bytes(), blocks, k, base);
      ghost var m := Bytes();
      SetFreeFlag(a, free);
      MarkEffect(m, Bytes(), blocks, k, free, base);
      EditsNoEmpty(blocks, k, 1, free);
      blocks := SetFree(blocks, k, free);
    }

    // ----------------------------------------------------------------
    // Allocation
    // ----------------------------------------------------------------

    /** root_malloc; 0 is NULL. */
    method Malloc(size: nat) returns (p: nat)
      requires Valid() && size <= U32_MAX
      modifies this`blocks, mem
      ensures Valid()
      ensures p == 0 <==> !initialized || !CanAlloc(old(blocks), size)
      ensures p == 0 <==> !initialized || size == 0 || size > U32_MAX - 15 || !Room(old(blocks), size)
      ensures initialized && 0 < size <= U32_MAX - 15 && HasFree(old(blocks), size + 15) ==> p != 0
      ensures p == 0 ==> blocks == old(blocks) && Bytes() == old(Bytes())
      ensures p != 0 ==> Ready() && blocks == AfterAlloc(old(blocks), size) && Placed(old(Data()), Data(), Offset(p), size)
    {
      CanAllocIff(blocks, size);
      if !initialized || size == 0 || Align(size) == 0 {
        return 0;
      }
      var block, k := Scan(Align(size));
      if block == 0 {
        return 0;
      }
      TakeBlock(block - base, Align(size), k);
      return Ptr(block - base);
    }

    /** The walk along the next links to the first free block of n bytes; 0 when it falls off the end. */
    method Scan(n: nat) returns (block: nat, ghost k: nat)
      requires Ready()
      ensures k == FirstFit(blocks, n)
      ensures block == if k == |blocks| then 0 else base + Addr(blocks, k)
    {
      block := base;
      k := 0;
      while block != 0
        invariant k <= |blocks| && block == if k == |blocks| then 0 else base + Addr(blocks, k)
        invariant forall j :: 0 <= j < k ==> !FitsIn(blocks[j], n)
        decreases |blocks| - k
      {
        HeaderRead(Bytes(), blocks, k, base);
        var h := HeaderAt(Bytes(), block - base);
        if h.free && h.size >= n {
          FirstFitIs(blocks, n, k);
          return;
        }
        block := h.next;
        k := k + 1;
      }
      FirstFitIs(blocks, n, |blocks|);
    }

    /** The header offset a pointer stands for; ARENA, where no block is, for a pointer below the arena. */
    function Offset(p: nat): nat {
      if p < base + HEADER then ARENA else p - base - HEADER
    }

    /** heap_split_block, then block->free = false. */
    method TakeBlock(a: nat, n: nat, ghost k: nat)
      requires Ready() && k < |blocks| && a == Addr(blocks, k) && 0 < n && FitsIn(blocks[k], n)
      modifies this`blocks, mem
      ensures Ready() && blocks == Take(old(blocks), k, n)
      ensures Placed(old(Data()), Data(), a, n)
    {
      ghost var m, bs := Bytes(), blocks;
      SplitLive(blocks, k, n);
      SplitBlock(a, n, k);
      ghost var m1, bs1 := Bytes(), blocks;
      Mark(a, false, k);
      BecameTrans(m, bs, m1, bs1, Bytes(), blocks, a, base);
      TakenContents(m, bs, Bytes(), k, n);
    }

    /** root_memzero */
    method ZeroBytes(a: nat, n: nat)
      requires mem.Length == ARENA && a + n <= ARENA
      modifies mem
      ensures Bytes() == Zeroed(old(Bytes()), a, n)
    {
      var i := 0;
      while i < n
        invariant i <= n
        invariant forall x :: 0 <= x < ARENA ==> mem[x] == if a <= x < a + i then 0 else old(mem[x])
      {
        mem[a + i] := 0;
        i := i + 1;
      }
    }

    /** root_memcpy */
    method CopyBytes(a: nat, b: nat, n: nat)
      requires mem.Length == ARENA && a + n <= ARENA && b + n <= ARENA && (a + n <= b || b + n <= a)
      modifies mem
      ensures CopiedTo(old(Bytes()), Bytes(), a, b, n)
    {
      var i := 0;
      while i < n
        invariant i <= n
        invariant forall x :: 0 <= x < ARENA ==> mem[x] == if a <= x < a + i then old(mem[x - a + b]) else old(mem[x])
      {
        mem[a + i] := mem[b + i];
        i := i + 1;
      }
    }

    /** root_calloc */
    method Calloc(count: nat, size: nat) returns (p: nat)
      requires Valid() && count <= U32_MAX && size <= U32_MAX
      modifies this`blocks, mem
      ensures Valid()
      ensures p == 0 <==> !initialized || count * size > U32_MAX || !CanAlloc(old(blocks), count * size)
      ensures p == 0 <==> !initialized || count * size == 0 || count * size > U32_MAX - 15 || !Room(old(blocks), count * size)
      ensures initialized && 0 < count * size <= U32_MAX - 15 && HasFree(old(blocks), count * size + 15) ==> p != 0
      ensures p == 0 ==> blocks == old(blocks) && Bytes() == old(Bytes())
      ensures p != 0 ==> Ready() && blocks == AfterAlloc(old(blocks), count * size) && Placed(old(Data()), Data(), Offset(p), count * size)
      ensures p != 0 ==> ZeroAt(Data(), Offset(p), count * size)
    {
      if count == 0 || size == 0 {
        return 0;
      }
      ProductFits(count, size);
      assert count * size > 0;
      if size > U32_MAX / count {
        return 0;
      }
      p := MallocZeroed(count * size);
    }

    method MallocZeroed(total: nat) returns (p: nat)
      requires Valid() && total <= U32_MAX
      modifies this`blocks, mem
      ensures Valid()
      ensures p == 0 <==> !initialized || !CanAlloc(old(blocks), total)
      ensures p == 0 <==> !initialized || total == 0 || total > U32_MAX - 15 || !Room(old(blocks), total)
      ensures initialized && 0 < total <= U32_MAX - 15 && HasFree(old(blocks), total + 15) ==> p != 0
      ensures p == 0 ==> blocks == old(blocks) && Bytes() == old(Bytes())
      ensures p != 0 ==> Ready() && blocks == AfterAlloc(old(blocks), total) && Placed(old(Data()), Data(), Offset(p), total)
      ensures p != 0 ==> ZeroAt(Data(), Offset(p), total)
    {
      p := Malloc(total);
      if p != 0 {
        ghost var d := Data();
        DataAt(Offset(p));
        ZeroLive(p - base - HEADER, total);
        PlacedThenZeroed(old(Data()), d, Data(), Offset(p), total);
      }
    }

    /** root_memzero on the payload of a live block. */
    method ZeroLive(a: nat, n: nat)
      requires Ready() && a in Data() && n <= |Data()[a]|
      modifies mem
      ensures Ready() && Data() - {a} == old(Data()) - {a}
      ensures a in Data() && |Data()[a]| == |old(Data())[a]| && ZeroAt(Data(), a, n)
    {
      DataAt(a);
      ZeroedContents(Bytes(), blocks, a, n, base);
      ZeroBytes(a + HEADER, n);
    }

    /** A caller's own store into byte k of a payload it holds. */
    method Poke(p: nat, k: nat, v: byte)
      requires LivePtr(p) && k < |Data()[Offset(p)]|
      modifies mem
      ensures Ready() && Data() == Poked(old(Data()), Offset(p), k, v)
    {
      DataAt(Offset(p));
      ghost var m := Bytes();
      mem[p - base + k] := v;
      PokedContents(m, Bytes(), blocks, Offset(p), k, v, base);
    }

    // ----------------------------------------------------------------
    // Release
    // ----------------------------------------------------------------

    /**
      What root_free may be given: any pointer whose supposed header either has no magic
      number or is the header of a block. Pointers from root_malloc, live or freed, NULL
      and pointers outside the arena are such.
     */
    ghost predicate Genuine(p: nat)
      reads this, mem
    {
      Valid() && (initialized && SeemsBlock(Bytes(), p) ==> IndexAt(blocks, Offset(p)) < |blocks|)
    }

    /** heap_owns and heap_block_valid */
    predicate SeemsBlock(m: Memory, p: nat) {
      base + HEADER <= p < base + ARENA && HeaderAt(m, p - base - HEADER).magic == MAGIC
    }

    predicate Owns(p: nat)
      reads this`initialized
    {
      p != 0 && initialized && base < p < base + ARENA
    }

    ghost predicate LivePtr(p: nat)
      reads this, mem
    {
      Ready() && Offset(p) in Data()
    }

    /** The guards of root_free and root_realloc recognise exactly the live pointers. */
    method SeesLive(p: nat) returns (live: bool)
      requires Genuine(p)
      ensures live == LivePtr(p) == (initialized && IsLive(blocks, Offset(p)))
      ensures live ==> base + HEADER <= p
    {
      ghost var k := |blocks|;
      if initialized {
        LiveMeans(blocks, Offset(p));
        DataAt(Offset(p));
        k := IndexAt(blocks, Offset(p));
        if k < |blocks| {
          HeaderRead(Bytes(), blocks, k, base);
        }
      }
      if !Owns(p) || !SeemsBlock(Bytes(), p) {
        return false;
      }
      return !HeaderAt(Bytes(), p - base - HEADER).free;
    }

    /** block->free = true and heap_merge_next(block), on block k at offset a. */
    method GiveForward(a: nat, ghost k: nat)
      requires Ready() && k < |blocks| && a == Addr(blocks, k)
      modifies this`blocks, mem
      ensures Ready() && blocks == MergeNext(SetFree(old(blocks), k, true), k)
      ensures k < |blocks| && blocks[k].free && a == Addr(blocks, k)
      ensures Became(old(Bytes()), old(blocks), Bytes(), blocks, a, base)
    {
      ghost var m, bs := Bytes(), blocks;
      SetFreeLive(blocks, k, true);
      Mark(a, true, k);
      ghost var m1, bs1 := Bytes(), blocks;
      MergeLive(blocks, k);
      MergeNextBlock(a, k);
      BecameTrans(m, bs, m1, bs1, Bytes(), blocks, a, base);
    }

    /** The second merge of root_free: into the block before, when that one is free. */
    method GiveBackward(a: nat, ghost k: nat)
      requires Ready() && k < |blocks| && a == Addr(blocks, k) && blocks[k].free
      modifies this`blocks, mem
      ensures Ready() && blocks == MergePrevious(old(blocks), k)
      ensures Became(old(Bytes()), old(blocks), Bytes(), blocks, a, base)
      ensures SeemsBlock(Bytes(), Ptr(a)) ==> IndexAt(blocks, a) < |blocks|
    {
      var previous := PreviousIfFree(a, k);
      if previous != 0 {
        MergeBack(previous - base, a, k);
      } else {
        IndexIs(blocks, k);
        BecameSame(Bytes(), blocks, a, base);
      }
    }

    /** heap_merge_next on the free block before block k. */
    method MergeBack(previous: nat, ghost a: nat, ghost k: nat)
      requires Ready() && 0 < k < |blocks| && previous == Addr(blocks, k - 1) && a == Addr(blocks, k)
      requires blocks[k - 1].free && blocks[k].free
      modifies this`blocks, mem
      ensures Ready() && blocks == MergeNext(old(blocks), k - 1)
      ensures Became(old(Bytes()), old(blocks), Bytes(), blocks, a, base)
      ensures Forgotten(Bytes(), a)
    {
      ghost var m, bs := Bytes(), blocks;
      MergeNextBlock(previous, k - 1);
      BackwardEffect(m, bs, Bytes(), k, base);
    }

    /** block->previous, or NULL when that block is in use. */
    method PreviousIfFree(a: nat, ghost k: nat) returns (previous: nat)
      requires Ready() && k < |blocks| && a == Addr(blocks, k)
      ensures previous == if k > 0 && blocks[k - 1].free then base + Addr(blocks, k - 1) else 0
    {
      HeaderRead(Bytes(), blocks, k, base);
      previous := HeaderAt(Bytes(), a).previous;
      if previous != 0 {
        HeaderRead(Bytes(), blocks, k - 1, base);
        if !HeaderAt(Bytes(), previous - base).free {
          return 0;
        }
      }
    }

    method GiveBlock(a: nat, ghost k: nat)
      requires Ready() && k < |blocks| && a == Addr(blocks, k) && !blocks[k].free
      modifies this`blocks, mem
      ensures Ready() && blocks == Give(old(blocks), k)
      ensures Data() == old(Data()) - {a} && a !in Live(blocks, 0)
      ensures SeemsBlock(Bytes(), Ptr(a)) ==> IndexAt(blocks, a) < |blocks|
    {
      ghost var m, bs := Bytes(), blocks;
      GiveForward(a, k);
      ghost var m1, bs1 := Bytes(), blocks;
      GiveBackward(a, k);
      BecameTrans(m, bs, m1, bs1, Bytes(), blocks, a, base);
      GivenContents(m, bs, Bytes(), k);
    }

    /** root_free. Afterwards p is dead and still harmless: freeing it again changes nothing. */
    method Free(p: nat)
      requires Genuine(p)
      modifies this`blocks, mem
      ensures Genuine(p) && !LivePtr(p)
      ensures initialized ==> blocks == AfterRelease(old(blocks), Offset(p)) && Data() == old(Data()) - {Offset(p)}
      ensures !old(LivePtr(p)) ==> blocks == old(blocks) && Bytes() == old(Bytes())
    {
      var live := SeesLive(p);
      if live {
        FreeLive(p);
      } else if initialized {
        assert Data() - {Offset(p)} == Data();
      }
    }

    method FreeLive(p: nat)
      requires Ready() && IsLive(blocks, Offset(p)) && base + HEADER <= p
      modifies this`blocks, mem
      ensures Genuine(p) && !LivePtr(p)
      ensures blocks == AfterRelease(old(blocks), Offset(p)) && Data() == old(Data()) - {Offset(p)}
    {
      GiveBlock(p - base - HEADER, IndexAt(blocks, Offset(p)));
    }

    // ----------------------------------------------------------------
    // Resizing
    // ----------------------------------------------------------------

    /** root_realloc */
    method Realloc(p: nat, size: nat) returns (q: nat)
      requires Genuine(p) && size <= U32_MAX
      modifies this`blocks, mem
      ensures Valid()
      ensures p == 0 ==> (q == 0 <==> !initialized || !CanAlloc(old(blocks), size))
      ensures initialized && 0 < size <= U32_MAX - 15 && HasFree(old(blocks), size + 15) && (p == 0 || old(LivePtr(p))) ==> q != 0
      ensures p == 0 && q != 0 ==> Ready() && blocks == AfterAlloc(old(blocks), size) && Placed(old(Data()), Data(), Offset(q), size)
      ensures p != 0 && size == 0 ==> q == 0 && !LivePtr(p)
      ensures p != 0 && size == 0 && old(LivePtr(p)) ==> Data() == old(Data()) - {Offset(p)}
      ensures p != 0 && size != 0 ==> (q != 0 <==> old(LivePtr(p)) && CanResize(old(blocks), Offset(p), size))
      ensures p != 0 && size != 0 && q != 0 ==> Ready() && Resized(old(Data()), Data(), Offset(p), Offset(q), size)
      ensures p != 0 && old(LivePtr(p)) ==> blocks == AfterResize(old(blocks), Offset(p), size)
      ensures q == 0 && (size != 0 || !old(LivePtr(p))) ==> blocks == old(blocks) && Bytes() == old(Bytes())
    {
      if p == 0 {
        q := Malloc(size);
        return;
      }
      if size == 0 {
        Free(p);
        return 0;
      }
      var live := SeesLive(p);
      if !live {
        return 0;
      }
      q := ResizeLive(p, size);
    }

    method ResizeLive(p: nat, size: nat) returns (q: nat)
      requires LivePtr(p) && IsLive(blocks, Offset(p)) && 0 < size <= U32_MAX
      modifies this`blocks, mem
      ensures Ready() && blocks == AfterResize(old(blocks), Offset(p), size)
      ensures q != 0 <==> CanResize(old(blocks), Offset(p), size)
      ensures size <= U32_MAX - 15 && HasFree(old(blocks), size + 15) ==> q != 0
      ensures q != 0 ==> Resized(old(Data()), Data(), Offset(p), Offset(q), size)
      ensures q == 0 ==> blocks == old(blocks) && Bytes() == old(Bytes())
    {
      CanAllocIff(blocks, size);
      var n := Align(size);
      if n == 0 {
        return 0;
      }
      DataAt(Offset(p));
      var a := p - base - HEADER;
      ghost var k := IndexAt(blocks, a);
      HeaderRead(Bytes(), blocks, k, base);
      if n <= HeaderAt(Bytes(), a).size {
        Shrink(a, n, size, k);
        return p;
      }
      var grows := RoomBehind(a, n, k);
      if grows {
        Grow(a, n, size, k);
        return p;
      }
      q := MoveAway(p, size);
    }

    /** block->next is free and large enough. */
    method RoomBehind(a: nat, n: nat, ghost k: nat) returns (ok: bool)
      requires Ready() && k < |blocks| && a == Addr(blocks, k) && blocks[k].size < n
      ensures ok == GrowsInPlace(blocks, k, n)
    {
      HeaderRead(Bytes(), blocks, k, base);
      var h := HeaderAt(Bytes(), a);
      if h.next == 0 {
        return false;
      }
      HeaderRead(Bytes(), blocks, k + 1, base);
      var g := HeaderAt(Bytes(), h.next - base);
      return g.free && h.size + HEADER + g.size >= n;
    }

    method Shrink(a: nat, n: nat, ghost size: nat, ghost k: nat)
      requires Ready() && k < |blocks| && a == Addr(blocks, k) && !blocks[k].free && 0 < size <= n <= blocks[k].size
      modifies this`blocks, mem
      ensures Ready() && blocks == Split(old(blocks), k, n)
      ensures Resized(old(Data()), Data(), a, a, size)
    {
      ghost var m, bs := Bytes(), blocks;
      SplitLive(blocks, k, n);
      SplitBlock(a, n, k);
      ResizedInPlace(m, bs, Bytes(), blocks, k, n, size, base);
    }

    method Grow(a: nat, n: nat, ghost size: nat, ghost k: nat)
      requires Ready() && k < |blocks| && a == Addr(blocks, k) && !blocks[k].free && 0 < size <= n && GrowsInPlace(blocks, k, n)
      modifies this`blocks, mem
      ensures Ready() && blocks == Grown(old(blocks), k, n)
      ensures Resized(old(Data()), Data(), a, a, size)
    {
      ghost var m, bs := Bytes(), blocks;
      MergeLive(blocks, k);
      MergeNextBlock(a, k);
      ghost var m1, bs1 := Bytes(), blocks;
      SplitLive(blocks, k, n);
      SplitBlock(a, n, k);
      ghost var m2, bs2 := Bytes(), blocks;
      BecameTrans(m, bs, m1, bs1, m2, bs2, a, base);
      ghost var from, to := a + HEADER, a + HEADER + bs[k].size;
      SameTrans(m, m1, m2, from, to);
      SetFreeLive(blocks, k, false);
      Mark(a, false, k);
      BecameTrans(m, bs, m2, bs2, Bytes(), blocks, a, base);
      SameTrans(m, m2, Bytes(), from, to);
      ResizedInPlace(m, bs, Bytes(), blocks, k, n, size, base);
    }

    /** root_memcpy between the payloads of two live blocks. */
    method CopyLive(to: nat, from: nat, n: nat)
      requires Ready() && to in Live(blocks, 0) && from in Live(blocks, 0) && to != from
      requires n <= Live(blocks, 0)[to] && n <= Live(blocks, 0)[from]
      modifies mem
      ensures Ready() && CopiedPayload(old(Data()), Data(), to, from, n)
    {
      LiveInside(blocks);
      PayloadsDisjoint(blocks, to, from);
      ghost var m := Bytes();
      CopyBytes(to + HEADER, from + HEADER, n);
      CopiedContents(m, Bytes(), blocks, to, from, n, base);
    }

    /** block->size of a live block. */
    method BlockSize(a: nat) returns (n: nat)
      requires Ready() && a in Data()
      ensures a in Live(blocks, 0) && n == |Data()[a]| == Live(blocks, 0)[a]
    {
      DataAt(a);
      ghost var k := LiveIndex(blocks, 0, a);
      HeaderRead(Bytes(), blocks, k, base);
      n := HeaderAt(Bytes(), a).size;
    }

    /** The last resort of root_realloc: malloc, memcpy, free. */
    method MoveAway(p: nat, size: nat) returns (q: nat)
      requires LivePtr(p) && IsLive(blocks, Offset(p)) && 0 < size <= U32_MAX
      modifies this`blocks, mem
      ensures Ready() && (q != 0 <==> CanAlloc(old(blocks), size))
      ensures q == 0 ==> blocks == old(blocks) && Bytes() == old(Bytes())
      ensures q != 0 ==> blocks == AfterRelease(AfterAlloc(old(blocks), size), Offset(p))
      ensures q != 0 ==> Resized(old(Data()), Data(), Offset(p), Offset(q), size)
    {
      ghost var d := Data();
      q := Malloc(size);
      if q == 0 {
        return;
      }
      DataAt(Offset(q));
      Refill(q, p, size, d);
    }

    /** The new block takes over the payload of the old one; d is what was there before it was allocated. */
    method Refill(q: nat, p: nat, size: nat, ghost d: map<nat, seq<byte>>)
      requires Ready() && base + HEADER <= q && Offset(p) in d && Placed(d, Data(), Offset(q), size)
      modifies this`blocks, mem
      ensures Ready() && blocks == AfterRelease(old(blocks), Offset(p))
      ensures Resized(d, Data(), Offset(p), Offset(q), size)
    {
      ghost var d1 := Data();
      StillThere(d, d1, Offset(q), size, Offset(p));
      CopyAndFree(q - base - HEADER, p, size);
      Moved(d, d1, Data(), Offset(p), Offset(q), size);
    }

    method CopyAndFree(to: nat, p: nat, size: nat)
      requires LivePtr(p) && to in Data() && to != Offset(p) && size <= |Data()[to]|
      modifies this`blocks, mem
      ensures Ready() && blocks == AfterRelease(old(blocks), Offset(p))
      ensures Relocated(old(Data()), Data(), Offset(p), to, size)
    {
      DataAt(Offset(p));
      DataAt(to);
      var a := p - base - HEADER;
      ghost var d := Data();
      var n := BlockSize(a);
      if n > size {
        n := size;
      }
      CopyLive(to, a, n);
      ghost var d1 := Data();
      LiveMeans(blocks, a);
      Free(p);
      CopiedAndFreed(d, d1, Data(), a, to, size, n);
    }

    // ----------------------------------------------------------------
    // Statistics
    // ----------------------------------------------------------------

    /** heap_used_bytes (free = false) and heap_free_bytes (free = true) */
    method CountBytes(free: bool) returns (total: nat)
      requires Valid()
      ensures total == if initialized then Total(blocks, free) else 0
    {
      total := 0;
      if !initialized {
        return;
      }
      var block := base;
      ghost var k := 0;
      while block != 0
        invariant k <= |blocks| && block == if k == |blocks| then 0 else base + Addr(blocks, k)
        invariant total == Total(blocks[..k], free)
        decreases |blocks| - k
      {
        HeaderRead(Bytes(), blocks, k, base);
        TotalStep(blocks, k, free);
        var h := HeaderAt(Bytes(), block - base);
        if h.free == free {
          total := total + h.size;
        }
        block := h.next;
        k := k + 1;
      }
      assert blocks[..k] == blocks;
    }
  }

  lemma TotalStep(bs: Blocks, k: nat, free: bool)
    requires k < |bs|
    ensures Total(bs[..k + 1], free) == Total(bs[..k], free) + if bs[k].free == free then bs[k].size else 0
  {
    assert bs[..k + 1][..k] == bs[..k];
  }

  lemma ProductFits(count: nat, size: nat)
    requires count > 0
    ensures size > U32_MAX / count <==> count * size > U32_MAX
  {
    var q := U32_MAX / count;
    assert U32_MAX == count * q + U32_MAX % count;
    if size > q {
      assert count * size >= count * (q + 1);
    } else {
      assert count * size <= count * q;
    }
  }
}
