/**
  The metadata cache of source/fs/filesystem.c: an array of FsNode records, backed by RAM
  contents or by the slots of a mounted volume. `ViewOf` is the node table a cache and
  its backing denote together; `Agree` says that the cache tells the truth about the disk.
 */
module FsCache {
  import opened Basics
  import opened Paths
  import opened FsTree
  import opened FsTable
  import opened DiskFormat

  datatype FsNode = FsNode(used: bool, dir: bool, path: string, size: nat, ram: seq<byte>)

  const RESET := FsNode(false, true, "", 0, [])  // reset_node: all fields zero

  datatype Backing = Ram | Disk(img: Image, area: nat)

  predicate BackingOk(bk: Backing) {
    bk.Disk? ==> SlotLba(bk.area, MAX_NODES) <= |bk.img|
  }

  /** What a used node says about itself, and what the RAM backend keeps for it. */
  ghost predicate NodeOk(n: FsNode, bk: Backing) {
    n.used ==>
      && Spells(n.path, Components(n.path)) && |n.path| < PATH_MAX
      && n.size <= FILE_MAX && (n.dir ==> n.size == 0)
      && (bk.Ram? ==> |n.ram| == n.size)
  }

  /** The record that persist_node writes for a used node. */
  function RecordOf(n: FsNode): DiskNode {
    DiskNode(true, !n.dir, n.size, n.path)
  }

  /** Slot i of the disk holds exactly what the cached node says. */
  ghost predicate RecordAgrees(n: FsNode, bk: Backing, i: nat)
    requires BackingOk(bk) && i < MAX_NODES
  {
    bk.Disk? ==>
      var d := NodeAt(bk.img, bk.area, i);
      if n.used then d == Some(RecordOf(n)) else d.Some? && !d.value.used
  }

  ghost predicate Agree(ns: seq<FsNode>, bk: Backing) {
    && |ns| == MAX_NODES && BackingOk(bk)
    && forall i {:trigger NodeOk(ns[i], bk)} :: 0 <= i < MAX_NODES ==> NodeOk(ns[i], bk) && RecordAgrees(ns[i], bk, i)
  }

  ghost function SlotView(n: FsNode, bk: Backing, i: nat): Slot
    requires BackingOk(bk) && i < MAX_NODES && NodeOk(n, bk)
  {
    if !n.used then Free
    else Node(Components(n.path), n.dir,
              if n.dir then [] else if bk.Ram? then n.ram else FileBytes(bk.img, bk.area, i, n.size))
  }

  ghost function ViewOf(ns: seq<FsNode>, bk: Backing): (v: Table)
    requires Agree(ns, bk)
    ensures |v| == MAX_NODES
  {
    seq(MAX_NODES, i requires 0 <= i < MAX_NODES => SlotView(ns[i], bk, i))
  }

  lemma ResetAgrees(ns: seq<FsNode>)
    requires |ns| == MAX_NODES && forall i :: 0 <= i < MAX_NODES ==> ns[i] == RESET
    ensures Agree(ns, Ram) && forall i :: 0 <= i < MAX_NODES ==> ViewOf(ns, Ram)[i].Free?
  {
    forall i | 0 <= i < MAX_NODES
      ensures NodeOk(ns[i], Ram) && RecordAgrees(ns[i], Ram, i)
    {
    }
    assert Agree(ns, Ram);
    var v := ViewOf(ns, Ram);
    assert forall i :: 0 <= i < MAX_NODES ==> v[i] == SlotView(ns[i], Ram, i);
  }

  /** The table a volume denotes on its own, cache or no cache. */
  ghost function DiskSlot(img: Image, area: nat, i: nat): Slot
    requires Holds(img, area, i)
  {
    var d := NodeAt(img, area, i);
    if d.None? || !d.value.used || d.value.size > FILE_MAX then Free
    else Node(Components(d.value.path), !d.value.file,
              if d.value.file then FileBytes(img, area, i, d.value.size) else [])
  }

  ghost function DiskView(img: Image, area: nat): (v: Table)
    requires Holds(img, area, 0)
    ensures |v| == MAX_NODES
  {
    seq(MAX_NODES, i requires 0 <= i < MAX_NODES => DiskSlot(img, area, i))
  }

  /** What a used record must say for the cache to be able to show it. */
  ghost predicate RecordOk(d: Option<DiskNode>) {
    d.Some? && (d.value.used ==>
      && Spells(d.value.path, Components(d.value.path)) && |d.value.path| < PATH_MAX
      && d.value.size <= FILE_MAX && (!d.value.file ==> d.value.size == 0))
  }

  /** A volume whose slots denote a tree. */
  ghost predicate VolumeOk(img: Image, area: nat) {
    && Holds(img, area, 0)
    && (forall i {:trigger NodeAt(img, area, i)} :: 0 <= i < MAX_NODES ==> RecordOk(NodeAt(img, area, i)))
    && Unique(DiskView(img, area))
    && (TreeOf(DiskView(img, area)) == map[] || WellFormed(TreeOf(DiskView(img, area))))
  }

  /** The cached node load_persistent_nodes makes of a record. */
  function Loaded(d: DiskNode): FsNode {
    if d.used then FsNode(true, !d.file, d.path, d.size, []) else RESET
  }

  /** The checks load_persistent_nodes makes on a used record. */
  predicate Acceptable(d: DiskNode) {
    d.path != [] && d.path[0] == '/' && d.size <= FILE_MAX
  }

  /** load_persistent_nodes accepts slot i. */
  ghost predicate SlotLoads(img: Image, area: nat, i: nat)
    requires Holds(img, area, 0) && i < MAX_NODES
  {
    var d := NodeAt(img, area, i);
    d.Some? && (d.value.used ==> Acceptable(d.value))
  }

  ghost predicate AllLoad(img: Image, area: nat)
    requires Holds(img, area, 0)
  {
    forall i :: 0 <= i < MAX_NODES ==> SlotLoads(img, area, i)
  }

  /** Some slot is used, and none holds "/" as a directory. */
  ghost predicate NoRoot(img: Image, area: nat)
    requires Holds(img, area, 0) && AllLoad(img, area)
  {
    && (exists i :: 0 <= i < MAX_NODES && SlotLoads(img, area, i) && NodeAt(img, area, i).value.used)
    && (forall i {:trigger SlotLoads(img, area, i)} :: 0 <= i < MAX_NODES && SlotLoads(img, area, i) ==>
          var d := NodeAt(img, area, i).value; !(d.used && d.path == "/" && !d.file))
  }

  /** A volume that load_persistent_nodes turns down before it looks for the base nodes. */
  ghost predicate Unloadable(img: Image, area: nat) {
    Holds(img, area, 0) && (!AllLoad(img, area) || NoRoot(img, area))
  }

  lemma RecordAcceptable(d: DiskNode)
    requires RecordOk(Some(d)) && d.used
    ensures Acceptable(d)
  {
    TailText(Components(d.path));
  }

  lemma LoadedAgrees(d: DiskNode, bk: Backing, i: nat)
    requires bk.Disk? && BackingOk(bk) && i < MAX_NODES
    requires NodeAt(bk.img, bk.area, i) == Some(d) && RecordOk(Some(d))
    ensures NodeOk(Loaded(d), bk) && RecordAgrees(Loaded(d), bk, i)
  {
  }

  /** A cache that agrees with a mounted volume, and shows a tree, sits on a volume that can be mounted again. */
  lemma AgreeingVolumeOk(ns: seq<FsNode>, bk: Backing)
    requires bk.Disk? && Agree(ns, bk)
    requires Unique(ViewOf(ns, bk)) && (TreeOf(ViewOf(ns, bk)) == map[] || WellFormed(TreeOf(ViewOf(ns, bk))))
    ensures VolumeOk(bk.img, bk.area) && DiskView(bk.img, bk.area) == ViewOf(ns, bk)
  {
    CacheIsDisk(ns, bk);
    forall i | 0 <= i < MAX_NODES
      ensures RecordOk(NodeAt(bk.img, bk.area, i))
    {
      assert NodeOk(ns[i], bk);
    }
  }

  /** Write-through: the cache shows exactly what the disk slots decode to. */
  lemma CacheIsDisk(ns: seq<FsNode>, bk: Backing)
    requires bk.Disk? && Agree(ns, bk)
    ensures ViewOf(ns, bk) == DiskView(bk.img, bk.area)
  {
    forall i | 0 <= i < MAX_NODES
      ensures ViewOf(ns, bk)[i] == DiskView(bk.img, bk.area)[i]
    {
      assert NodeOk(ns[i], bk) && RecordAgrees(ns[i], bk, i);
    }
  }

  // ----------------------------------------------------------------
  // Frame lemmas
  // ----------------------------------------------------------------

  /** Only slot i of the backing may have changed. */
  ghost predicate OnlySlotChanged(bk: Backing, bk': Backing, i: nat) {
    match bk
    case Ram => bk'.Ram?
    case Disk(img, area) =>
      && bk'.Disk? && bk'.area == area && |bk'.img| == |img|
      && forall l :: 0 <= l < |img| && !InSlot(area, i, l) ==> bk'.img[l] == img[l]
  }

  lemma OtherSlots(n: FsNode, bk: Backing, bk': Backing, i: nat, j: nat)
    requires BackingOk(bk) && OnlySlotChanged(bk, bk', i)
    requires i < MAX_NODES && j < MAX_NODES && i != j && NodeOk(n, bk)
    requires RecordAgrees(n, bk, j)
    ensures BackingOk(bk') && NodeOk(n, bk') && RecordAgrees(n, bk', j)
    ensures SlotView(n, bk', j) == SlotView(n, bk, j)
  {
    if bk.Disk? {
      forall l | 0 <= l < |bk.img| && InSlot(bk.area, j, l)
        ensures bk'.img[l] == bk.img[l]
      {
        assert !InSlot(bk.area, i, l);
      }
      SlotFrame(bk.img, bk'.img, bk.area, j, if n.used then n.size else 0);
    }
  }

  /** What the replacement leaves in slot j. */
  lemma ReplacedAt(ns: seq<FsNode>, bk: Backing, bk': Backing, i: nat, n: FsNode, j: nat)
    requires Agree(ns, bk) && i < MAX_NODES && j < MAX_NODES && OnlySlotChanged(bk, bk', i)
    requires BackingOk(bk') && NodeOk(n, bk') && RecordAgrees(n, bk', i)
    ensures NodeOk(ns[i := n][j], bk') && RecordAgrees(ns[i := n][j], bk', j)
    ensures SlotView(ns[i := n][j], bk', j) == if j == i then SlotView(n, bk', i) else ViewOf(ns, bk)[j]
  {
    assert NodeOk(ns[j], bk) && RecordAgrees(ns[j], bk, j);
    if j != i {
      OtherSlots(ns[j], bk, bk', i, j);
    }
  }

  /** Replacing one node, in step with its slot, replaces one slot of the table. */
  lemma ReplaceNode(ns: seq<FsNode>, bk: Backing, bk': Backing, i: nat, n: FsNode)
    requires Agree(ns, bk) && i < MAX_NODES && OnlySlotChanged(bk, bk', i)
    requires BackingOk(bk') && NodeOk(n, bk') && RecordAgrees(n, bk', i)
    ensures Agree(ns[i := n], bk')
    ensures ViewOf(ns[i := n], bk') == ViewOf(ns, bk)[i := SlotView(n, bk', i)]
  {
    var ns' := ns[i := n];
    forall j | 0 <= j < MAX_NODES
      ensures NodeOk(ns'[j], bk') && RecordAgrees(ns'[j], bk', j)
    {
      ReplacedAt(ns, bk, bk', i, n, j);
    }
    var v, v' := ViewOf(ns, bk), ViewOf(ns', bk');
    forall j | 0 <= j < MAX_NODES
      ensures v'[j] == v[i := SlotView(n, bk', i)][j]
    {
      ReplacedAt(ns, bk, bk', i, n, j);
    }
  }

  /** Rewriting the record of a slot leaves its file bytes alone. */
  lemma RecordKeepsFile(img: Image, img': Image, area: nat, i: nat, size: nat)
    requires Holds(img, area, i) && |img'| == |img| && size <= FILE_MAX
    requires forall l :: 0 <= l < |img| && !(SlotLba(area, i) <= l < SlotLba(area, i) + 2) ==> img'[l] == img[l]
    ensures FileBytes(img', area, i, size) == FileBytes(img, area, i, size)
  {
    var lba := SlotLba(area, i) + 2;
    assert forall k :: 0 <= k < size ==> img'[lba + k / SECTOR] == img[lba + k / SECTOR];
  }
}
