/**
  PCI bus discovery as a graph search (source/drivers/pci/pci.c): buses are nodes, and a
  PCI-to-PCI bridge found on a bus is an edge to its secondary bus.
 */
module PciBus {
  import opened Basics

  const BUSES := 256
  const SLOTS := 32
  const MAX_DEVICES := 128   // PCI_MAX_DEVICES
  const NO_VENDOR := 0xFFFF
  const BRIDGE_CLASS := 0x06
  const BRIDGE_SUBCLASS := 0x04

  datatype Address = Address(bus: nat, slot: nat, fn: nat)

  /** The configuration registers the scan reads. */
  datatype Registers = Registers(vendor: nat, header: byte, classCode: byte, subclass: byte, secondary: byte)

  /** A fixed topology: what is found at each address. */
  type Space = Address -> Registers

  predicate Present(s: Space, a: Address) {
    s(a).vendor != NO_VENDOR
  }

  /** Functions to probe in a slot whose function 0 is present. */
  function FunctionCount(header: byte): nat {
    if header >= 128 then 8 else 1
  }

  /** The functions the scan gets to see. */
  predicate Visible(s: Space, a: Address) {
    && a.slot < SLOTS && Present(s, Address(a.bus, a.slot, 0))
    && a.fn < FunctionCount(s(Address(a.bus, a.slot, 0)).header) && Present(s, a)
  }

  /** Function 0 of a slot is seen when it is there, the other seven only if the top bit of its header type is set too. */
  lemma VisibleIff(s: Space, a: Address)
    ensures Visible(s, a) <==>
            && a.slot < 32 && a.fn < 8 && s(a).vendor != 0xFFFF
            && var first := s(Address(a.bus, a.slot, 0));
               a.fn == 0 || (first.vendor != 0xFFFF && first.header / 128 == 1)
  {
    if a.fn == 0 {
      assert a == Address(a.bus, a.slot, 0);
    }
  }

  predicate IsBridge(r: Registers) {
    r.classCode == BRIDGE_CLASS && r.subclass == BRIDGE_SUBCLASS && r.secondary != 0
  }

  ghost predicate Edge(s: Space, from: nat, to: nat) {
    exists a: Address :: a.bus == from && Visible(s, a) && IsBridge(s(a)) && s(a).secondary == to
  }

  /** A path of bridges from bus 0. */
  ghost predicate Path(s: Space, p: seq<nat>) {
    && p != [] && p[0] == 0
    && forall i :: 0 <= i < |p| - 1 ==> Edge(s, p[i], p[i + 1])
  }

  ghost predicate Reachable(s: Space, bus: nat) {
    exists p :: Path(s, p) && p[|p| - 1] == bus
  }

  // ----------------------------------------------------------------
  // Scan order
  // ----------------------------------------------------------------

  /** The functions of a slot below f, in scan order. */
  function InSlot(s: Space, bus: nat, slot: nat, f: nat): seq<Address> {
    if f == 0 then [] else
      InSlot(s, bus, slot, f - 1) + if Present(s, Address(bus, slot, f - 1)) then [Address(bus, slot, f - 1)] else []
  }

  function SlotFunctions(s: Space, bus: nat, slot: nat): seq<Address> {
    if !Present(s, Address(bus, slot, 0)) then []
    else InSlot(s, bus, slot, FunctionCount(s(Address(bus, slot, 0)).header))
  }

  /** The functions of the slots below n, in scan order. */
  function InSlots(s: Space, bus: nat, n: nat): seq<Address> {
    if n == 0 then [] else InSlots(s, bus, n - 1) + SlotFunctions(s, bus, n - 1)
  }

  function OnBus(s: Space, bus: nat): seq<Address> {
    InSlots(s, bus, SLOTS)
  }

  /** The functions found by scanning these buses one after the other. */
  function OnBuses(s: Space, buses: seq<nat>): seq<Address> {
    if buses == [] then [] else OnBuses(s, buses[..|buses| - 1]) + OnBus(s, buses[|buses| - 1])
  }

  lemma {:induction false} InSlotMeans(s: Space, bus: nat, slot: nat, f: nat, a: Address)
    ensures a in InSlot(s, bus, slot, f) <==> a.bus == bus && a.slot == slot && a.fn < f && Present(s, a)
  {
    if f > 0 {
      InSlotMeans(s, bus, slot, f - 1, a);
    }
  }

  lemma {:induction false} InSlotsMeans(s: Space, bus: nat, n: nat, a: Address)
    requires n <= SLOTS
    ensures a in InSlots(s, bus, n) <==> a.bus == bus && a.slot < n && Visible(s, a)
  {
    if n == 0 {
      assert InSlots(s, bus, 0) == [];
    } else {
      InSlotsMeans(s, bus, n - 1, a);
      NextSlotMeans(s, bus, n, a);
    }
  }

  lemma {:induction false} NextSlotMeans(s: Space, bus: nat, n: nat, a: Address)
    requires 0 < n <= SLOTS && (a in InSlots(s, bus, n - 1) <==> a.bus == bus && a.slot < n - 1 && Visible(s, a))
    ensures a in InSlots(s, bus, n) <==> a.bus == bus && a.slot < n && Visible(s, a)
  {
    SlotMeans(s, bus, n - 1, a);
    OneSlotMore(s, bus, n - 1, a, InSlots(s, bus, n - 1), SlotFunctions(s, bus, n - 1));
  }

  lemma OneSlotMore(s: Space, bus: nat, slot: nat, a: Address, before: seq<Address>, more: seq<Address>)
    requires a in before <==> a.bus == bus && a.slot < slot && Visible(s, a)
    requires a in more <==> a.bus == bus && a.slot == slot && Visible(s, a)
    ensures a in before + more <==> a.bus == bus && a.slot < slot + 1 && Visible(s, a)
  {
  }

  lemma SlotMeans(s: Space, bus: nat, slot: nat, a: Address)
    requires slot < SLOTS
    ensures a in SlotFunctions(s, bus, slot) <==> a.bus == bus && a.slot == slot && Visible(s, a)
  {
    InSlotMeans(s, bus, slot, FunctionCount(s(Address(bus, slot, 0)).header), a);
  }

  ghost predicate NoDup<T>(q: seq<T>) {
    forall i, j :: 0 <= i < j < |q| ==> q[i] != q[j]
  }

  lemma NoDupConcat<T>(a: seq<T>, b: seq<T>)
    requires NoDup(a) && NoDup(b) && forall x :: x in b ==> x !in a
    ensures NoDup(a + b)
  {
    forall i, j | 0 <= i < j < |a + b|
      ensures (a + b)[i] != (a + b)[j]
    {
      if i < |a| <= j {
        assert b[j - |a|] in b && a[i] in a;
      }
    }
  }

  lemma {:induction false} InSlotDistinct(s: Space, bus: nat, slot: nat, f: nat)
    ensures NoDup(InSlot(s, bus, slot, f))
  {
    if f > 0 {
      InSlotDistinct(s, bus, slot, f - 1);
      InSlotMeans(s, bus, slot, f - 1, Address(bus, slot, f - 1));
    }
  }

  lemma SlotDistinct(s: Space, bus: nat, slot: nat)
    ensures NoDup(SlotFunctions(s, bus, slot))
  {
    InSlotDistinct(s, bus, slot, FunctionCount(s(Address(bus, slot, 0)).header));
  }

  /** Functions of one slot are not among those of the slots before it. */
  lemma SlotsApart(s: Space, bus: nat, slot: nat, before: seq<Address>, more: seq<Address>)
    requires slot < SLOTS && before == InSlots(s, bus, slot) && more == SlotFunctions(s, bus, slot)
    ensures forall a :: a in more ==> a !in before
  {
    forall a | a in more
      ensures a !in before
    {
      InSlotsMeans(s, bus, slot, a);
      SlotMeans(s, bus, slot, a);
    }
  }

  lemma {:induction false} InSlotsDistinct(s: Space, bus: nat, n: nat)
    requires n <= SLOTS
    ensures NoDup(InSlots(s, bus, n))
  {
    if n > 0 {
      var before, more := InSlots(s, bus, n - 1), SlotFunctions(s, bus, n - 1);
      InSlotsDistinct(s, bus, n - 1);
      SlotDistinct(s, bus, n - 1);
      SlotsApart(s, bus, n - 1, before, more);
      NoDupConcat(before, more);
    }
  }

  /** Scanning distinct buses finds every visible function on them, each once. */
  lemma {:induction false} OnBusesMeans(s: Space, buses: seq<nat>)
    requires NoDup(buses)
    ensures NoDup(OnBuses(s, buses))
    ensures forall a :: a in OnBuses(s, buses) <==> a.bus in buses && Visible(s, a)
  {
    if buses != [] {
      var n := |buses| - 1;
      OnBusesMeans(s, buses[..n]);
      OnBusMeans(s, buses[n]);
      assert buses == buses[..n] + [buses[n]];
      assert buses[n] !in buses[..n];
      OneBusMore(s, buses[..n], OnBuses(s, buses[..n]), buses[n], OnBus(s, buses[n]));
    }
  }

  lemma OnBusMeans(s: Space, bus: nat)
    ensures NoDup(OnBus(s, bus))
    ensures forall a :: a in OnBus(s, bus) <==> a.bus == bus && Visible(s, a)
  {
    InSlotsDistinct(s, bus, SLOTS);
    forall a
      ensures a in OnBus(s, bus) <==> a.bus == bus && Visible(s, a)
    {
      InSlotsMeans(s, bus, SLOTS, a);
    }
  }

  lemma OneBusMore(s: Space, buses: seq<nat>, before: seq<Address>, bus: nat, more: seq<Address>)
    requires bus !in buses && NoDup(before) && NoDup(more)
    requires forall a :: a in before <==> a.bus in buses && Visible(s, a)
    requires forall a :: a in more <==> a.bus == bus && Visible(s, a)
    ensures NoDup(before + more)
    ensures forall a :: a in before + more <==> a.bus in buses + [bus] && Visible(s, a)
  {
    NoDupConcat(before, more);
  }

  // ----------------------------------------------------------------
  // The queue
  // ----------------------------------------------------------------

  /** pci_queue_bus on the list of queued buses. */
  function Queued(q: seq<nat>, bus: nat): seq<nat> {
    if bus in q then q else q + [bus]
  }

  function QueuedBy(s: Space, q: seq<nat>, a: Address): seq<nat> {
    if IsBridge(s(a)) then Queued(q, s(a).secondary) else q
  }

  function QueuedByAll(s: Space, q: seq<nat>, found: seq<Address>): seq<nat> {
    if found == [] then q else QueuedBy(s, QueuedByAll(s, q, found[..|found| - 1]), found[|found| - 1])
  }

  /** Bus numbers, none twice: at most 256 of them. */
  ghost predicate BusList(q: seq<nat>) {
    NoDup(q) && forall i :: 0 <= i < |q| ==> q[i] < BUSES
  }

  ghost predicate Extends(q: seq<nat>, r: seq<nat>) {
    |q| <= |r| && r[..|q|] == q
  }

  lemma {:induction false} QueuedByAllFacts(s: Space, q: seq<nat>, found: seq<Address>)
    requires BusList(q)
    ensures var r := QueuedByAll(s, q, found);
            && BusList(r) && Extends(q, r)
            && forall b :: b in r <==> b in q || exists a :: a in found && IsBridge(s(a)) && s(a).secondary == b
  {
    if found != [] {
      var n := |found| - 1;
      QueuedByAllFacts(s, q, found[..n]);
      assert found == found[..n] + [found[n]];
    }
  }

  /** Distinct numbers below n: there are at most n of them. */
  lemma {:induction false} Pigeonhole(q: seq<nat>, n: nat)
    requires NoDup(q) && forall i :: 0 <= i < |q| ==> q[i] < n
    ensures |q| <= n
  {
    if q != [] {
      assert q[0] < n;
      if j :| 0 <= j < |q| && q[j] == n - 1 {
        Pigeonhole(q[..j] + q[j + 1..], n - 1);
      } else {
        Pigeonhole(q, n - 1);
      }
    }
  }

  /** A bus not yet queued always finds room: the 256 entries cannot be used up. */
  lemma RoomForUnseen(q: seq<nat>, bus: nat)
    requires BusList(q) && bus < BUSES && bus !in q
    ensures |q| < BUSES
  {
    Pigeonhole(q + [bus], BUSES);
  }

  // ----------------------------------------------------------------
  // The search
  // ----------------------------------------------------------------

  /** head buses of the queue have been scanned: everything queued is reachable, and what they lead to is queued. */
  ghost predicate Searching(s: Space, q: seq<nat>, head: nat) {
    && BusList(q) && head <= |q| && 0 < |q| && q[0] == 0
    && (forall b :: b in q ==> Reachable(s, b))
    && forall b, c {:trigger Edge(s, b, c)} :: b in q[..head] && Edge(s, b, c) ==> c in q
  }

  lemma StartSearch(s: Space)
    ensures Searching(s, [0], 0)
  {
  }

  lemma ReachFurther(s: Space, b: nat, c: nat)
    requires Reachable(s, b) && Edge(s, b, c)
    ensures Reachable(s, c)
  {
    var p :| Path(s, p) && p[|p| - 1] == b;
    var r := p + [c];
    forall i | 0 <= i < |r| - 1
      ensures Edge(s, r[i], r[i + 1])
    {
      assert i < |p| - 1 ==> Edge(s, p[i], p[i + 1]);
    }
    assert Path(s, r);
  }

  lemma EdgeIsFound(s: Space, bus: nat, c: nat)
    ensures Edge(s, bus, c) <==> exists a :: a in OnBus(s, bus) && IsBridge(s(a)) && s(a).secondary == c
  {
    forall a
      ensures a in OnBus(s, bus) <==> a.bus == bus && Visible(s, a)
    {
      InSlotsMeans(s, bus, SLOTS, a);
    }
  }

  lemma SearchStep(s: Space, q: seq<nat>, head: nat)
    requires Searching(s, q, head) && head < |q|
    ensures Searching(s, QueuedByAll(s, q, OnBus(s, q[head])), head + 1)
    ensures Extends(q, QueuedByAll(s, q, OnBus(s, q[head])))
  {
    var r := QueuedByAll(s, q, OnBus(s, q[head]));
    QueuedByAllFacts(s, q, OnBus(s, q[head]));
    forall b | b in r
      ensures Reachable(s, b)
    {
      EdgeIsFound(s, q[head], b);
      if b !in q {
        assert q[head] in q;
        ReachFurther(s, q[head], b);
      }
    }
    forall b, c | b in r[..head + 1] && Edge(s, b, c)
      ensures c in r
    {
      EdgeIsFound(s, q[head], c);
      Scanned(q, r, head, b);
    }
  }

  lemma Scanned(q: seq<nat>, r: seq<nat>, head: nat, b: nat)
    requires Extends(q, r) && head < |q| && b in r[..head + 1]
    ensures b in q[..head] || b == q[head]
    ensures forall c :: c in q ==> c in r
  {
  }

  /** When the queue is used up it holds exactly the reachable buses, each once. */
  lemma SearchDone(s: Space, q: seq<nat>)
    requires Searching(s, q, |q|)
    ensures NoDup(q) && forall b :: b in q <==> Reachable(s, b)
  {
    forall b | Reachable(s, b)
      ensures b in q
    {
      var p :| Path(s, p) && p[|p| - 1] == b;
      PathStays(s, q, p, |p| - 1);
    }
  }

  lemma {:induction false} PathStays(s: Space, q: seq<nat>, p: seq<nat>, i: nat)
    requires Searching(s, q, |q|) && Path(s, p) && i < |p|
    ensures p[i] in q
  {
    if i > 0 {
      PathStays(s, q, p, i - 1);
      assert q[..|q|] == q;
      assert Edge(s, p[i - 1], p[i - 1 + 1]);
    }
  }

  // ----------------------------------------------------------------
  // The scan
  // ----------------------------------------------------------------

  /** The first MAX_DEVICES of a list. */
  function Kept(found: seq<Address>): seq<Address> {
    if |found| <= MAX_DEVICES then found else found[..MAX_DEVICES]
  }

  /** seen marks exactly the queued buses. */
  ghost predicate Marks(seen: seq<bool>, q: seq<nat>) {
    |seen| == BUSES && BusList(q) && forall b :: 0 <= b < BUSES ==> (seen[b] <==> b in q)
  }

  class Pci {
    const devices: array<Address>
    var deviceCount: nat
    ghost var found: seq<Address>    // every function seen since the rescan began

    ghost predicate Valid()
      reads this, devices
    {
      devices.Length == MAX_DEVICES && deviceCount <= MAX_DEVICES && devices[..deviceCount] == Kept(found)
    }

    constructor ()
      ensures Valid() && found == [] && fresh(devices)
    {
      devices := new Address[MAX_DEVICES](_ => Address(0, 0, 0));
      deviceCount := 0;
      found := [];
    }

    /** pci_store_device; the table keeps the first 128. */
    method StoreDevice(s: Space, a: Address)
      requires Valid() && Present(s, a)
      modifies this, devices
      ensures Valid() && found == old(found) + [a]
    {
      found := found + [a];
      if deviceCount >= MAX_DEVICES {
        return;
      }
      if s(a).vendor == NO_VENDOR {
        return;
      }
      devices[deviceCount] := a;
      deviceCount := deviceCount + 1;
    }

    /** pci_queue_bus */
    method QueueBus(bus: nat, seen: array<bool>, queue: array<nat>, tail: nat) returns (end: nat)
      requires bus < BUSES && queue.Length == BUSES && tail <= BUSES && Marks(seen[..], queue[..tail])
      modifies seen, queue
      ensures end <= BUSES && Marks(seen[..], queue[..end]) && queue[..end] == Queued(old(queue[..tail]), bus)
    {
      if seen[bus] {
        return tail;
      }
      RoomForUnseen(queue[..tail], bus);
      if tail >= BUSES {
        return tail;
      }
      ghost var q := queue[..tail];
      seen[bus] := true;
      queue[tail] := bus;
      end := tail + 1;
      assert queue[..end] == q + [bus];
    }

    /** The inner body of the scan, for one present function. */
    method Visit(s: Space, a: Address, seen: array<bool>, queue: array<nat>, tail: nat) returns (end: nat)
      requires Valid() && Present(s, a)
      requires queue.Length == BUSES && tail <= BUSES && Marks(seen[..], queue[..tail])
      modifies this, devices, seen, queue
      ensures Valid() && found == old(found) + [a]
      ensures end <= BUSES && Marks(seen[..], queue[..end]) && queue[..end] == QueuedBy(s, old(queue[..tail]), a)
    {
      StoreDevice(s, a);
      end := tail;
      if s(a).classCode == BRIDGE_CLASS && s(a).subclass == BRIDGE_SUBCLASS {
        if s(a).secondary != 0 {
          end := QueueBus(s(a).secondary, seen, queue, tail);
        }
      }
    }

    method ScanSlot(s: Space, bus: nat, slot: nat, seen: array<bool>, queue: array<nat>, tail: nat) returns (end: nat)
      requires Valid() && queue.Length == BUSES && tail <= BUSES && Marks(seen[..], queue[..tail])
      modifies this, devices, seen, queue
      ensures Valid() && found == old(found) + SlotFunctions(s, bus, slot)
      ensures end <= BUSES && Marks(seen[..], queue[..end])
      ensures queue[..end] == QueuedByAll(s, old(queue[..tail]), SlotFunctions(s, bus, slot))
    {
      end := tail;
      if s(Address(bus, slot, 0)).vendor == NO_VENDOR {
        return;
      }
      end := ScanFunctions(s, bus, slot, FunctionCount(s(Address(bus, slot, 0)).header), seen, queue, tail);
    }

    method ScanFunctions(s: Space, bus: nat, slot: nat, count: nat, seen: array<bool>, queue: array<nat>, tail: nat) returns (end: nat)
      requires Valid() && queue.Length == BUSES && tail <= BUSES && Marks(seen[..], queue[..tail])
      modifies this, devices, seen, queue
      ensures Valid() && found == old(found) + InSlot(s, bus, slot, count)
      ensures end <= BUSES && Marks(seen[..], queue[..end])
      ensures queue[..end] == QueuedByAll(s, old(queue[..tail]), InSlot(s, bus, slot, count))
    {
      end := tail;
      ghost var was, q := found, queue[..tail];
      var f := 0;
      while f < count
        invariant f <= count && Valid() && found == was + InSlot(s, bus, slot, f)
        invariant end <= BUSES && Marks(seen[..], queue[..end])
        invariant queue[..end] == QueuedByAll(s, q, InSlot(s, bus, slot, f))
      {
        end := ScanFunction(s, bus, slot, f, seen, queue, end, was, q);
        f := f + 1;
      }
    }

    method ScanFunction(s: Space, bus: nat, slot: nat, f: nat, seen: array<bool>, queue: array<nat>, tail: nat,
                        ghost was: seq<Address>, ghost q: seq<nat>) returns (end: nat)
      requires Valid() && queue.Length == BUSES && tail <= BUSES && Marks(seen[..], queue[..tail])
      requires found == was + InSlot(s, bus, slot, f) && queue[..tail] == QueuedByAll(s, q, InSlot(s, bus, slot, f))
      modifies this, devices, seen, queue
      ensures Valid() && found == was + InSlot(s, bus, slot, f + 1)
      ensures end <= BUSES && Marks(seen[..], queue[..end]) && queue[..end] == QueuedByAll(s, q, InSlot(s, bus, slot, f + 1))
    {
      end := tail;
      var a := Address(bus, slot, f);
      NextFunction(s, bus, slot, f, was, q);
      if s(a).vendor != NO_VENDOR {
        end := Visit(s, a, seen, queue, end);
      }
    }

    method ScanBus(s: Space, bus: nat, seen: array<bool>, queue: array<nat>, tail: nat) returns (end: nat)
      requires Valid() && queue.Length == BUSES && tail <= BUSES && Marks(seen[..], queue[..tail])
      modifies this, devices, seen, queue
      ensures Valid() && found == old(found) + OnBus(s, bus)
      ensures end <= BUSES && Marks(seen[..], queue[..end])
      ensures queue[..end] == QueuedByAll(s, old(queue[..tail]), OnBus(s, bus))
    {
      end := tail;
      var slot := 0;
      while slot < SLOTS
        invariant slot <= SLOTS && Valid() && found == old(found) + InSlots(s, bus, slot)
        invariant end <= BUSES && Marks(seen[..], queue[..end])
        invariant queue[..end] == QueuedByAll(s, old(queue[..tail]), InSlots(s, bus, slot))
      {
        NextSlot(s, bus, slot, old(found), old(queue[..tail]));
        end := ScanSlot(s, bus, slot, seen, queue, end);
        slot := slot + 1;
      }
    }

    /** Takes the next bus off the queue and scans it. */
    method ScanFirst(s: Space, seen: array<bool>, queue: array<nat>, head: nat, tail: nat, ghost q: seq<nat>)
      returns (end: nat, ghost r: seq<nat>)
      requires Valid() && queue.Length == BUSES && head < tail <= BUSES && q == queue[..tail] && Marks(seen[..], q)
      requires Searching(s, q, head) && found == OnBuses(s, q[..head])
      modifies this, devices, seen, queue
      ensures Valid() && end <= BUSES && r == queue[..end] && Marks(seen[..], r)
      ensures Searching(s, r, head + 1) && found == OnBuses(s, r[..head + 1])
    {
      r := QueuedByAll(s, q, OnBus(s, q[head]));
      SearchStep(s, q, head);
      Rescanned(s, q, r, head + 1);
      end := ScanBus(s, queue[head], seen, queue, tail);
    }

    /** The loop of pci_rescan over the queue; order is the queue in the end, all of it scanned. */
    method ScanAll(s: Space, seen: array<bool>, queue: array<nat>, tail: nat) returns (ghost order: seq<nat>)
      requires Valid() && queue.Length == BUSES && tail <= BUSES && Marks(seen[..], queue[..tail])
      requires Searching(s, queue[..tail], 0) && found == []
      modifies this, devices, seen, queue
      ensures Valid() && Searching(s, order, |order|) && found == OnBuses(s, order)
    {
      var head, end := 0, tail;
      order := queue[..end];
      while head < end
        invariant Valid() && head <= end <= BUSES && order == queue[..end] && Marks(seen[..], order)
        invariant Searching(s, order, head) && found == OnBuses(s, order[..head])
        decreases BUSES - head
      {
        end, order := ScanFirst(s, seen, queue, head, end, order);
        head := head + 1;
      }
      assert order[..head] == order;
    }

    /**
      pci_rescan. `order` is the sequence of buses scanned: exactly those reachable from
      bus 0 through bridges, each once; the table keeps the first 128 functions on them.
     */
    method Rescan(s: Space) returns (ghost order: seq<nat>)
      requires Valid()
      modifies this, devices
      ensures Valid() && NoDup(order) && forall b :: b in order <==> Reachable(s, b)
      ensures found == OnBuses(s, order) && devices[..deviceCount] == Kept(found)
    {
      deviceCount, found := 0, [];
      var seen := new bool[BUSES](_ => false);
      var queue := new nat[BUSES](_ => 0);
      var tail := QueueBus(0, seen, queue, 0);
      StartSearch(s);
      order := ScanAll(s, seen, queue, tail);
      SearchDone(s, order);
    }
  }

  lemma NextFunction(s: Space, bus: nat, slot: nat, f: nat, found: seq<Address>, q: seq<nat>)
    ensures var a, before, after := Address(bus, slot, f), InSlot(s, bus, slot, f), InSlot(s, bus, slot, f + 1);
            && (Present(s, a) ==> found + after == (found + before) + [a]
                                  && QueuedByAll(s, q, after) == QueuedBy(s, QueuedByAll(s, q, before), a))
            && (!Present(s, a) ==> after == before)
  {
  }

  lemma NextSlot(s: Space, bus: nat, slot: nat, found: seq<Address>, q: seq<nat>)
    ensures var before, more, after := InSlots(s, bus, slot), SlotFunctions(s, bus, slot), InSlots(s, bus, slot + 1);
            && found + after == (found + before) + more
            && QueuedByAll(s, q, after) == QueuedByAll(s, QueuedByAll(s, q, before), more)
  {
    var before, more := InSlots(s, bus, slot), SlotFunctions(s, bus, slot);
    assert InSlots(s, bus, slot + 1) == before + more;
    Appended(s, q, found, before, more, InSlots(s, bus, slot + 1));
  }

  lemma Appended(s: Space, q: seq<nat>, found: seq<Address>, before: seq<Address>, more: seq<Address>, after: seq<Address>)
    requires after == before + more
    ensures found + after == (found + before) + more
    ensures QueuedByAll(s, q, after) == QueuedByAll(s, QueuedByAll(s, q, before), more)
  {
    QueuedAppend(s, q, before, more);
  }

  lemma Rescanned(s: Space, q: seq<nat>, r: seq<nat>, head: nat)
    requires Extends(q, r) && 0 < head <= |q|
    ensures OnBuses(s, r[..head]) == OnBuses(s, q[..head - 1]) + OnBus(s, q[head - 1])
  {
    assert r[..head] == r[..|q|][..head] == q[..head - 1] + [q[head - 1]];
  }

  lemma QueuedPush(s: Space, q: seq<nat>, found: seq<Address>, a: Address)
    ensures QueuedByAll(s, q, found + [a]) == QueuedBy(s, QueuedByAll(s, q, found), a)
  {
  }

  lemma {:induction false} QueuedAppend(s: Space, q: seq<nat>, a: seq<Address>, b: seq<Address>)
    ensures QueuedByAll(s, q, a + b) == QueuedByAll(s, QueuedByAll(s, q, a), b)
  {
    if b == [] {
      assert a + b == a;
    } else {
      var n := |b| - 1;
      QueuedAppend(s, q, a, b[..n]);
      assert a + b == (a + b[..n]) + [b[n]];
      QueuedPush(s, q, a + b[..n], b[n]);
    }
  }

  /** With at most 128 functions behind reachable buses, the table lists each of them exactly once and nothing else. */
  lemma TableComplete(s: Space, order: seq<nat>, table: seq<Address>)
    requires NoDup(order) && forall b :: b in order <==> Reachable(s, b)
    requires table == Kept(OnBuses(s, order)) && |OnBuses(s, order)| <= MAX_DEVICES
    ensures NoDup(table) && forall a :: a in table <==> Reachable(s, a.bus) && Visible(s, a)
  {
    OnBusesMeans(s, order);
  }
}
