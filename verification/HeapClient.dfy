/**
  Every program that uses the heap (source/kernel/heap.c) as it is meant to be used: it
  frees and resizes pointers it holds, and stores only inside its payloads. For such a
  program the heap is a map from pointers to payloads in which nothing but the program
  itself ever changes a byte.
 */
module HeapClient {
  import opened Basics
  import opened HeapBlocks
  import opened HeapMemory
  import opened HeapRuns
  import opened KernelHeap

  /** What the program does next; i counts the pointers it holds. */
  datatype Action =
    | New(size: nat)
    | NewZeroed(count: nat, size: nat)
    | Drop(i: nat)
    | Change(i: nat, size: nat)
    | Put(i: nat, k: nat, v: byte)

  /** A pointer the program holds, and the size it asked for. */
  datatype Held = Held(p: nat, size: nat)

  type Payloads = map<nat, seq<byte>>

  datatype World = World(held: seq<Held>, data: Payloads)

  predicate IsU32(a: Action) {
    match a
    case New(size) => size <= U32_MAX
    case NewZeroed(count, size) => count <= U32_MAX && size <= U32_MAX
    case Change(_, size) => size <= U32_MAX
    case _ => true
  }

  /** The header offset a pointer stands for; ARENA for a pointer below the arena. */
  function Off(base: nat, p: nat): nat {
    if p < base + HEADER then ARENA else p - base - HEADER
  }

  function Without(held: seq<Held>, i: nat): seq<Held>
    requires i < |held|
  {
    held[..i] + held[i + 1..]
  }

  // ----------------------------------------------------------------
  // The heap as the program sees it
  // ----------------------------------------------------------------

  ghost predicate HeldIn(base: nat, h: Held, d: Payloads) {
    Off(base, h.p) in d && |d[Off(base, h.p)]| >= h.size
  }

  ghost predicate SameBlock(base: nat, held: seq<Held>, i: nat, j: nat)
    requires i < |held| && j < |held|
  {
    Off(base, held[i].p) == Off(base, held[j].p)
  }

  ghost predicate IsHeld(base: nat, held: seq<Held>, off: nat) {
    exists i :: 0 <= i < |held| && Off(base, held[i].p) == off
  }

  /** Every held pointer has its bytes, no two share a block, and every live block is held. */
  ghost predicate Tracks(base: nat, w: World) {
    && (forall i :: 0 <= i < |w.held| ==> HeldIn(base, w.held[i], w.data))
    && (forall i, j {:trigger SameBlock(base, w.held, i, j)} :: 0 <= i < |w.held| && 0 <= j < |w.held| && SameBlock(base, w.held, i, j) ==> i == j)
    && (forall off {:trigger IsHeld(base, w.held, off)} :: off in w.data ==> IsHeld(base, w.held, off))
  }

  /** A new pointer if the heap grants it; otherwise NULL and nothing changed. */
  ghost predicate Allocated(base: nat, granted: bool, w: World, w': World, size: nat, zeroed: bool) {
    if granted then exists p :: w'.held == w.held + [Held(p, size)] && FreshAt(base, w, w', p, size, zeroed)
    else w' == w
  }

  /** root_calloc(count, size) finds a block in the list bs. */
  predicate CanCalloc(bs: Blocks, count: nat, size: nat) {
    count * size <= U32_MAX && CanAlloc(bs, count * size)
  }

  /** The calls an action makes on the heap. */
  function CallsOf(base: nat, a: Action, held: seq<Held>): seq<Call> {
    match a
    case New(size) => [Alloc(size)]
    case NewZeroed(count, size) => if count * size <= U32_MAX then [Alloc(count * size)] else []
    case Drop(i) => if i < |held| then [Release(Off(base, held[i].p))] else []
    case Change(i, size) => if i < |held| then [Resize(Off(base, held[i].p), size)] else []
    case Put(_, _, _) => []
  }

  ghost predicate FreshAt(base: nat, w: World, w': World, p: nat, size: nat, zeroed: bool) {
    Placed(w.data, w'.data, Off(base, p), size) && (zeroed ==> ZeroAt(w'.data, Off(base, p), size))
  }

  /** One action on a heap with the block list bs: who holds what afterwards, and every payload byte. */
  ghost predicate Step(base: nat, a: Action, bs: Blocks, w: World, w': World) {
    match a
    case New(size) => Allocated(base, CanAlloc(bs, size), w, w', size, false)
    case NewZeroed(count, size) => Allocated(base, CanCalloc(bs, count, size), w, w', count * size, true)
    case Drop(i) =>
      if i < |w.held| then w' == World(Without(w.held, i), w.data - {Off(base, w.held[i].p)}) else w' == w
    case Change(i, size) =>
      if i >= |w.held| then w' == w
      else if size == 0 then w' == World(Without(w.held, i), w.data - {Off(base, w.held[i].p)})
      else if !CanResize(bs, Off(base, w.held[i].p), size) then w' == w
      else exists q :: w'.held == w.held[i := Held(q, size)]
                       && Resized(w.data, w'.data, Off(base, w.held[i].p), Off(base, q), size)
    case Put(i, k, v) =>
      if i < |w.held| && k < w.held[i].size && HeldIn(base, w.held[i], w.data)
      then w' == World(w.held, Poked(w.data, Off(base, w.held[i].p), k, v))
      else w' == w
  }

  lemma TrackNew(base: nat, w: World, d': Payloads, p: nat, size: nat)
    requires Tracks(base, w) && Placed(w.data, d', Off(base, p), size)
    ensures Tracks(base, World(w.held + [Held(p, size)], d'))
  {
    var held' := w.held + [Held(p, size)];
    forall off | off in w.data
      ensures off in d' && d'[off] == w.data[off] && off != Off(base, p)
    {
      StillThere(w.data, d', Off(base, p), size, off);
    }
    forall i, j | 0 <= i < |held'| && 0 <= j < |held'| && SameBlock(base, held', i, j)
      ensures i == j
    {
      if i < |w.held| { assert HeldIn(base, w.held[i], w.data); }
      if j < |w.held| { assert HeldIn(base, w.held[j], w.data); }
      assert i < |w.held| && j < |w.held| ==> SameBlock(base, w.held, i, j);
    }
    forall off | off in d'
      ensures IsHeld(base, held', off)
    {
      if off == Off(base, p) {
        assert held'[|w.held|].p == p;
      } else {
        assert off in d' - {Off(base, p)};
        KeepsHeld(base, w, held', off);
      }
    }
  }

  lemma TrackAllocated(base: nat, w: World, d': Payloads, p: nat, size: nat, zeroed: bool)
    requires Tracks(base, w) && Placed(w.data, d', Off(base, p), size)
    requires zeroed ==> ZeroAt(d', Off(base, p), size)
    ensures var w' := World(w.held + [Held(p, size)], d'); Tracks(base, w') && Allocated(base, true, w, w', size, zeroed)
  {
    TrackNew(base, w, d', p, size);
    assert FreshAt(base, w, World(w.held + [Held(p, size)], d'), p, size, zeroed);
  }

  lemma KeepsHeld(base: nat, w: World, held': seq<Held>, off: nat)
    requires Tracks(base, w) && off in w.data && |w.held| <= |held'|
    requires forall i :: 0 <= i < |w.held| && Off(base, w.held[i].p) == off ==> held'[i] == w.held[i]
    ensures IsHeld(base, held', off)
  {
    assert IsHeld(base, w.held, off);
    var i :| 0 <= i < |w.held| && Off(base, w.held[i].p) == off;
    assert held'[i] == w.held[i];
  }

  lemma TrackDrop(base: nat, w: World, i: nat)
    requires Tracks(base, w) && i < |w.held|
    ensures Tracks(base, World(Without(w.held, i), w.data - {Off(base, w.held[i].p)}))
  {
    var held', d' := Without(w.held, i), w.data - {Off(base, w.held[i].p)};
    forall j | 0 <= j < |held'|
      ensures HeldIn(base, held'[j], d')
    {
      var k := if j < i then j else j + 1;
      assert held'[j] == w.held[k] && HeldIn(base, w.held[k], w.data) && !SameBlock(base, w.held, k, i);
    }
    forall j, k | 0 <= j < |held'| && 0 <= k < |held'| && SameBlock(base, held', j, k)
      ensures j == k
    {
      assert SameBlock(base, w.held, if j < i then j else j + 1, if k < i then k else k + 1);
    }
    forall off | off in d'
      ensures IsHeld(base, held', off)
    {
      assert IsHeld(base, w.held, off);
      var k :| 0 <= k < |w.held| && Off(base, w.held[k].p) == off;
      assert held'[if k < i then k else k - 1] == w.held[k];
    }
  }

  lemma TrackResized(base: nat, bs: Blocks, w: World, d': Payloads, i: nat, q: nat, size: nat)
    requires Tracks(base, w) && i < |w.held| && size > 0 && Resized(w.data, d', Off(base, w.held[i].p), Off(base, q), size)
    requires CanResize(bs, Off(base, w.held[i].p), size)
    ensures var w' := World(w.held[i := Held(q, size)], d'); Tracks(base, w') && Step(base, Change(i, size), bs, w, w')
  {
    TrackChange(base, w, d', i, q, size);
    assert World(w.held[i := Held(q, size)], d').held == w.held[i := Held(q, size)];
  }

  lemma TrackChange(base: nat, w: World, d': Payloads, i: nat, q: nat, size: nat)
    requires Tracks(base, w) && i < |w.held| && Resized(w.data, d', Off(base, w.held[i].p), Off(base, q), size)
    ensures Tracks(base, World(w.held[i := Held(q, size)], d'))
  {
    var from, to, held' := Off(base, w.held[i].p), Off(base, q), w.held[i := Held(q, size)];
    forall j | 0 <= j < |held'| && j != i
      ensures HeldIn(base, held'[j], d') && Off(base, held'[j].p) != to
    {
      assert HeldIn(base, w.held[j], w.data) && !SameBlock(base, w.held, j, i);
      assert Off(base, w.held[j].p) in w.data - {from};
    }
    forall j, k | 0 <= j < |held'| && 0 <= k < |held'| && SameBlock(base, held', j, k)
      ensures j == k
    {
      assert j != i && k != i ==> SameBlock(base, w.held, j, k);
    }
    forall off | off in d'
      ensures IsHeld(base, held', off)
    {
      if off == to {
        assert held'[i].p == q;
      } else {
        assert off in d' - {to};
        KeepsHeld(base, w, held', off);
      }
    }
  }

  lemma TrackPut(base: nat, w: World, off: nat, k: nat, v: byte)
    requires Tracks(base, w) && off in w.data && k < |w.data[off]|
    ensures Tracks(base, World(w.held, Poked(w.data, off, k, v)))
  {
    var d' := Poked(w.data, off, k, v);
    forall i | 0 <= i < |w.held|
      ensures HeldIn(base, w.held[i], d')
    {
      assert HeldIn(base, w.held[i], w.data);
    }
  }

  // ----------------------------------------------------------------
  // The program on the heap
  // ----------------------------------------------------------------

  ghost function Seen(h: Heap, held: seq<Held>): World
    requires h.Ready()
    reads h, h.mem
  {
    World(held, h.Data())
  }

  /** The heap is in order, and the program holds what it thinks it holds. */
  ghost predicate InStep(h: Heap, held: seq<Held>)
    reads h, h.mem
  {
    h.Ready() && Tracks(h.base, Seen(h, held))
  }

  method Obtain(h: Heap, held: seq<Held>, size: nat) returns (held': seq<Held>)
    requires InStep(h, held) && size <= U32_MAX
    modifies h`blocks, h.mem
    ensures InStep(h, held')
    ensures Allocated(h.base, CanAlloc(old(h.blocks), size), old(Seen(h, held)), Seen(h, held'), size, false)
    ensures h.blocks == AfterAlloc(old(h.blocks), size)
  {
    ghost var w := Seen(h, held);
    var p := h.Malloc(size);
    if p == 0 {
      return held;
    }
    TrackAllocated(h.base, w, h.Data(), p, size, false);
    held' := held + [Held(p, size)];
  }

  method ObtainZeroed(h: Heap, held: seq<Held>, count: nat, size: nat) returns (held': seq<Held>)
    requires InStep(h, held) && count <= U32_MAX && size <= U32_MAX
    modifies h`blocks, h.mem
    ensures InStep(h, held')
    ensures Allocated(h.base, CanCalloc(old(h.blocks), count, size), old(Seen(h, held)), Seen(h, held'), count * size, true)
    ensures h.blocks == if count * size <= U32_MAX then AfterAlloc(old(h.blocks), count * size) else old(h.blocks)
  {
    ghost var w := Seen(h, held);
    var p := h.Calloc(count, size);
    if p == 0 {
      return held;
    }
    var total := count * size;
    TrackAllocated(h.base, w, h.Data(), p, total, true);
    held' := held + [Held(p, total)];
  }

  lemma RunOne(bs: Blocks, c: Call)
    ensures Run(bs, [c]) == HeapRuns.Step(bs, c)
  {
    assert [c][1..] == [];
  }

  /** A held pointer is live, and so may be given to root_free and root_realloc. */
  lemma HeldIsLive(h: Heap, held: seq<Held>, i: nat)
    requires InStep(h, held) && i < |held|
    ensures h.LivePtr(held[i].p) && h.Genuine(held[i].p) && held[i].p != 0
    ensures h.Offset(held[i].p) == Off(h.base, held[i].p) && |h.Data()[h.Offset(held[i].p)]| >= held[i].size
  {
    assert HeldIn(h.base, held[i], h.Data());
    LiveMeans(h.blocks, h.Offset(held[i].p));
    h.DataAt(h.Offset(held[i].p));
  }

  method GiveUp(h: Heap, held: seq<Held>, i: nat) returns (held': seq<Held>)
    requires InStep(h, held) && i < |held|
    modifies h`blocks, h.mem
    ensures InStep(h, held')
    ensures Seen(h, held') == World(Without(held, i), old(Seen(h, held)).data - {Off(h.base, held[i].p)})
    ensures h.blocks == AfterRelease(old(h.blocks), Off(h.base, held[i].p))
  {
    HeldIsLive(h, held, i);
    TrackDrop(h.base, Seen(h, held), i);
    h.Free(held[i].p);
    held' := Without(held, i);
  }

  method Regrow(h: Heap, held: seq<Held>, i: nat, size: nat) returns (held': seq<Held>)
    requires InStep(h, held) && i < |held| && size <= U32_MAX
    modifies h`blocks, h.mem
    ensures InStep(h, held') && Step(h.base, Change(i, size), old(h.blocks), old(Seen(h, held)), Seen(h, held'))
    ensures h.blocks == AfterResize(old(h.blocks), Off(h.base, held[i].p), size)
  {
    if size == 0 {
      held' := GiveUpByResize(h, held, i);
      return;
    }
    ghost var w := Seen(h, held);
    HeldIsLive(h, held, i);
    var q := h.Realloc(held[i].p, size);
    if q == 0 {
      return held;
    }
    TrackResized(h.base, old(h.blocks), w, h.Data(), i, q, size);
    held' := held[i := Held(q, size)];
  }

  method GiveUpByResize(h: Heap, held: seq<Held>, i: nat) returns (held': seq<Held>)
    requires InStep(h, held) && i < |held|
    modifies h`blocks, h.mem
    ensures InStep(h, held') && Step(h.base, Change(i, 0), old(h.blocks), old(Seen(h, held)), Seen(h, held'))
    ensures h.blocks == AfterResize(old(h.blocks), Off(h.base, held[i].p), 0)
  {
    HeldIsLive(h, held, i);
    TrackDrop(h.base, Seen(h, held), i);
    var q := h.Realloc(held[i].p, 0);
    held' := Without(held, i);
  }

  method Write(h: Heap, held: seq<Held>, i: nat, k: nat, v: byte)
    requires InStep(h, held)
    modifies h.mem
    ensures InStep(h, held) && Step(h.base, Put(i, k, v), h.blocks, old(Seen(h, held)), Seen(h, held))
  {
    if i < |held| && k < held[i].size {
      HeldIsLive(h, held, i);
      TrackPut(h.base, Seen(h, held), h.Offset(held[i].p), k, v);
      h.Poke(held[i].p, k, v);
    }
  }

  /** One action: what it does to the program's world, and the calls it makes on the heap. */
  method Act(h: Heap, a: Action, held: seq<Held>) returns (held': seq<Held>)
    requires InStep(h, held) && IsU32(a)
    modifies h`blocks, h.mem
    ensures InStep(h, held') && Step(h.base, a, old(h.blocks), old(Seen(h, held)), Seen(h, held'))
    ensures h.blocks == Run(old(h.blocks), CallsOf(h.base, a, held))
  {
    held' := held;
    match a {
      case New(size) =>
        RunOne(h.blocks, Alloc(size));
        held' := Obtain(h, held, size);
      case NewZeroed(count, size) =>
        RunOne(h.blocks, Alloc(count * size));
        held' := ObtainZeroed(h, held, count, size);
      case Drop(i) =>
        if i < |held| {
          RunOne(h.blocks, Release(Off(h.base, held[i].p)));
          held' := GiveUp(h, held, i);
        }
      case Change(i, size) =>
        if i < |held| {
          RunOne(h.blocks, Resize(Off(h.base, held[i].p), size));
          held' := Regrow(h, held, i, size);
        }
      case Put(i, k, v) => Write(h, held, i, k, v);
    }
  }

  /** The program goes through these worlds, and the heap through these block lists. */
  ghost predicate Follows(base: nat, actions: seq<Action>, worlds: seq<World>, lists: seq<Blocks>) {
    && |worlds| == |lists| == |actions| + 1
    && forall i :: 0 <= i < |actions| ==> ActedAt(base, actions, worlds, lists, i)
  }

  ghost predicate ActedAt(base: nat, actions: seq<Action>, worlds: seq<World>, lists: seq<Blocks>, i: nat)
    requires i < |actions| && |worlds| == |lists| == |actions| + 1
  {
    && Step(base, actions[i], lists[i], worlds[i], worlds[i + 1])
    && lists[i + 1] == Run(lists[i], CallsOf(base, actions[i], worlds[i].held))
  }

  lemma FollowsOn(base: nat, actions: seq<Action>, worlds: seq<World>, lists: seq<Blocks>, n: nat, w: World, bs: Blocks)
    requires n < |actions| && Follows(base, actions[..n], worlds, lists) && Step(base, actions[n], lists[n], worlds[n], w)
    requires bs == Run(lists[n], CallsOf(base, actions[n], worlds[n].held))
    ensures Follows(base, actions[..n + 1], worlds + [w], lists + [bs])
  {
    var actions', worlds', lists' := actions[..n + 1], worlds + [w], lists + [bs];
    forall i | 0 <= i < n + 1
      ensures ActedAt(base, actions', worlds', lists', i)
    {
      if i < n {
        assert ActedAt(base, actions[..n], worlds, lists, i);
      }
    }
  }

  lemma {:induction false} RunAppend(bs: Blocks, calls: seq<Call>, more: seq<Call>)
    ensures Run(bs, calls + more) == Run(Run(bs, calls), more)
    decreases |calls|
  {
    if calls == [] {
      assert calls + more == more;
    } else {
      assert (calls + more)[1..] == calls[1..] + more;
      RunAppend(HeapRuns.Step(bs, calls[0]), calls[1..], more);
    }
  }

  /**
    Every program, from any heap in order. Its payloads change only as its own actions say;
    the block list is that of the heap calls it makes, and an allocation fails only when the
    list has no block for it. A program that never calls root_realloc, and has given up all
    it held, leaves the single initial block.
   */
  method Play(h: Heap, actions: seq<Action>) returns (held: seq<Held>, ghost worlds: seq<World>, ghost lists: seq<Blocks>)
    requires h.Ready() && h.Data() == map[] && forall i :: 0 <= i < |actions| ==> IsU32(actions[i])
    modifies h`blocks, h.mem
    ensures InStep(h, held) && Follows(h.base, actions, worlds, lists)
    ensures worlds[0] == World([], map[]) && worlds[|actions|] == Seen(h, held)
    ensures lists[0] == old(h.blocks) && lists[|actions|] == h.blocks
    ensures Total(h.blocks, false) + Total(h.blocks, true) + HEADER * |h.blocks| == ARENA
    ensures old(h.blocks) == INITIAL && held == [] && NoChange(actions) ==> h.blocks == INITIAL
  {
    held, worlds, lists := [], [World([], map[])], [h.blocks];
    ghost var calls: seq<Call> := [];
    for n := 0 to |actions|
      invariant InStep(h, held) && Follows(h.base, actions[..n], worlds, lists)
      invariant worlds[0] == World([], map[]) && worlds[n] == Seen(h, held)
      invariant lists[0] == old(h.blocks) && lists[n] == h.blocks
      invariant h.blocks == Run(old(h.blocks), calls) && (NoChange(actions) ==> NoResize(calls))
    {
      ghost var more := CallsOf(h.base, actions[n], held);
      RunAppend(old(h.blocks), calls, more);
      held := Act(h, actions[n], held);
      FollowsOn(h.base, actions, worlds, lists, n, Seen(h, held), h.blocks);
      worlds, lists, calls := worlds + [Seen(h, held)], lists + [h.blocks], calls + more;
    }
    assert actions[..|actions|] == actions;
    Conservation(h.blocks);
    if old(h.blocks) == INITIAL && held == [] && NoChange(actions) {
      AllGivenUp(h, held, calls);
    }
  }

  /** The same from heap_init on. */
  method Start(base: nat, actions: seq<Action>) returns (h: Heap, held: seq<Held>, ghost worlds: seq<World>, ghost lists: seq<Blocks>)
    requires 0 < base && base + ARENA <= U32_MAX && forall i :: 0 <= i < |actions| ==> IsU32(actions[i])
    ensures fresh(h) && h.base == base && InStep(h, held) && Follows(base, actions, worlds, lists)
    ensures worlds[0] == World([], map[]) && worlds[|actions|] == Seen(h, held)
    ensures lists[0] == INITIAL && lists[|actions|] == h.blocks
    ensures held == [] && NoChange(actions) ==> h.blocks == INITIAL
  {
    h := new Heap(base);
    h.Init();
    held, worlds, lists := Play(h, actions);
  }

  predicate NoChange(actions: seq<Action>) {
    forall i :: 0 <= i < |actions| ==> !actions[i].Change?
  }

  lemma AllGivenUp(h: Heap, held: seq<Held>, calls: seq<Call>)
    requires InStep(h, held) && held == [] && h.blocks == Run(INITIAL, calls) && NoResize(calls)
    ensures h.blocks == INITIAL
  {
    NothingHeld(h.base, Seen(h, held));
    LiveInside(h.blocks);
    NothingStored(h.Bytes(), Live(h.blocks, 0));
    FreeingAllRestores(calls);
  }

  lemma NothingHeld(base: nat, w: World)
    requires Tracks(base, w) && w.held == []
    ensures w.data == map[]
  {
    assert forall off :: off in w.data ==> IsHeld(base, w.held, off);
  }

  lemma NothingStored(m: Memory, live: map<nat, nat>)
    requires Inside(live) && Contents(m, live) == map[]
    ensures live == map[]
  {
    forall off | off in live
      ensures false
    {
      ContentsLength(m, live, off);
    }
  }
}
