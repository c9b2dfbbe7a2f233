/**
  source/fs/filesystem.c: the node table, edited in place by loops, and its two backends.
  `tree` is what the used nodes denote; every call is stated on it.
 */
module FileSystem {
  import opened Basics
  import opened Paths
  import opened PathResolver
  import opened FsTree
  import opened FsTable
  import opened FsOutcomes
  import opened DiskFormat
  import opened RootFsDisk
  import opened FsCache
  import opened BaseTree

  /** get_parent_path: fails only on "/" (a path in use always fits the buffer). */
  method GetParentPath(path: string, ghost p: Path) returns (ok: bool, parent: string)
    requires Spells(path, p)
    ensures ok <==> p != []
    ensures ok ==> Spells(parent, Parent(p)) && |parent| < |path|
  {
    RenderNotRoot(p);
    if path == "/" {
      return false, "";
    }
    ParentText(p);
    RenderSpells(Parent(p));
    TailText(Parent(p));
    var length := LastSlash(path, p);
    if length <= 1 {
      return true, "/";
    }
    ok, parent := true, path[..length - 1];
  }

  /** The loop of get_parent_path: one past the index of the last slash. */
  method LastSlash(path: string, ghost p: Path) returns (length: nat)
    requires IsPath(p) && p != [] && path == Tail(Parent(p)) + "/" + p[|p| - 1]
    ensures length == |Tail(Parent(p))| + 1
  {
    ghost var up := Tail(Parent(p));
    ghost var last := p[|p| - 1];
    assert IsName(last);
    assert forall i :: |up| + 1 <= i < |path| ==> path[i] == last[i - |up| - 1] != '/';
    assert path[|up|] == '/';
    length := |path|;
    while length > 0 && path[length - 1] != '/'
      invariant |up| + 1 <= length <= |path|
    {
      length := length - 1;
    }
  }

  /** dst + suffix, where suffix is what follows the first |src| characters of path. */
  lemma RebaseSpells(path: string, src: string, dst: string, q: Path, s: Path, d: Path)
    requires Spells(path, q) && Spells(src, s) && Spells(dst, d)
    requires s <= q && s != [] && d != []
    ensures |src| <= |path| && Spells(dst + path[|src|..], Rebase(q, s, d))
  {
    RebaseText(q, s, d);
    RenderSpells(Rebase(q, s, d));
  }

  /** The cursor stands at a component of path (or at its end), after the prefix spelt by current. */
  ghost predicate Scanned(path: string, cursor: nat, current: string, p: Path, reached: Path) {
    && cursor <= |path| && (cursor < |path| ==> path[cursor] != '/')
    && p == reached + Components(path[cursor..]) && Spells(current, reached)
  }

  /** One round of ensure_directory_absolute on the strings: the next, longer prefix of path. */
  method NextPrefix(path: string, start: nat, current: string, ghost p: Path, ghost reached: Path)
    returns (cursor: nat, longer: string, ghost q: Path)
    requires Spells(path, p) && |path| < PATH_MAX && start < |path|
    requires Scanned(path, start, current, p, reached)
    ensures start < cursor && Scanned(path, cursor, longer, p, q)
    ensures q <= p && q != [] && Parent(q) == reached && |longer| < PATH_MAX
  {
    ghost var rest := Components(path[start..]);
    var ok, component;
    ok, component, cursor := ScanComponent(path, start);
    PrefixStep(p, reached, rest);
    q := reached + [rest[0]];
    cursor := SkipSlashes(path, cursor);
    ok, longer := PathAppend(current, PATH_MAX, component, reached);
    RenderSpells(q);
  }

  lemma PrefixStep(p: Path, reached: Path, rest: Path)
    requires IsPath(p) && p == reached + rest && rest != []
    ensures var q := reached + [rest[0]];
            q <= p && Parent(q) == reached && p == q + rest[1..] && |rest[0]| < NAME_MAX
            && IsPath(q) && |Render(q)| <= |Render(p)|
  {
    var q := reached + [rest[0]];
    assert p[|reached|] == rest[0];
    assert IsName(p[|reached|]);
    assert p == q + rest[1..];
    PrefixFits(q, p);
  }

  lemma OnlyOneUnder(v: Table, index: nat, p: Path)
    requires Unique(v) && At(v, index, p) && !HasBelow(TreeOf(v), p)
    ensures v[index := Free] == Cleared(v, p)
  {
    forall j | 0 <= j < |v| && Under(v[j], p)
      ensures j == index
    {
      TreeAt(v, j);
      assert Same(v, j, index);
    }
  }

  /** t' is t with some of the base nodes it lacked. */
  ghost predicate PartlyCompleted(t: Tree, t': Tree) {
    exists i :: 0 <= i <= BASE_COUNT && t' == Completed(t, BaseNodes()[..i])
  }

  /** create_initial_tree succeeds exactly when there is a slot for every base node t lacks. */
  ghost predicate BaseOutcome(done: bool, t: Tree, t': Tree) {
    && done == (|t| + Missing(t) <= MAX_NODES)
    && if done then t' == BaseAdded(t) else PartlyCompleted(t, t')
  }

  lemma PartlyWellFormed(t: Tree, t': Tree)
    requires (t == map[] || WellFormed(t)) && BaseSafe(t) && PartlyCompleted(t, t')
    ensures (t' == map[] || WellFormed(t')) && BaseSafe(t')
  {
    var i :| 0 <= i <= BASE_COUNT && t' == Completed(t, BaseNodes()[..i]);
    PrefixKeepsInvariant(t, i);
    PrefixSafe(t, i);
  }

  lemma AllSlotsLoad(img: Image, area: nat)
    requires VolumeOk(img, area)
    ensures AllLoad(img, area)
  {
    forall i | 0 <= i < MAX_NODES
      ensures SlotLoads(img, area, i)
    {
      assert RecordOk(NodeAt(img, area, i));
      if NodeAt(img, area, i).value.used {
        RecordAcceptable(NodeAt(img, area, i).value);
      }
    }
  }

  /** The tree a mountable volume holds. */
  ghost function HeldTree(volume: Volume): Tree
    requires volume.Valid() && VolumeOk(volume.Img(), volume.area)
    reads volume, volume.sectors
  {
    TreeOf(DiskView(volume.Img(), volume.area))
  }

  lemma BaseDone(t: Tree, t': Tree)
    requires t' == Completed(t, BaseNodes()[..BASE_COUNT]) && |t'| <= MAX_NODES
    ensures BaseOutcome(true, t, t')
  {
    assert BaseNodes()[..BASE_COUNT] == BaseNodes();
    BaseSize(t);
  }

  lemma BaseStuck(t: Tree, t': Tree, i: nat)
    requires i < BASE_COUNT && t' == Completed(t, BaseNodes()[..i]) && BasePath(i) !in t' && |t'| == MAX_NODES
    ensures BaseOutcome(false, t, t')
  {
    CannotComplete(t, i);
  }

  class Fs {
    const volume: Volume
    const memory: bool         // the kernel heap never runs out
    const nodes: array<FsNode>
    var persistent: bool       // filesystem_persistent_backend
    var cwd: string            // current_directory
    ghost var tree: Tree
    ghost var here: Path       // what cwd spells

    ghost predicate Shape()
      reads this`persistent, volume
    {
      nodes.Length == MAX_NODES && volume.Valid() && (persistent ==> volume.volumeReady)
    }

    ghost function Store(): Backing
      requires Shape()
      reads this`persistent, volume, volume.sectors
    {
      if persistent then Disk(volume.Img(), volume.area) else Ram
    }

    /** The cached nodes agree with their backing. */
    ghost predicate Agrees()
      reads this`persistent, nodes, volume, volume.sectors
    {
      Shape() && Agree(nodes[..], Store())
    }

    ghost function View(): (v: Table)
      requires Agrees()
      reads this`persistent, nodes, volume, volume.sectors
      ensures |v| == MAX_NODES
    {
      ViewOf(nodes[..], Store())
    }

    /** No path occurs twice, and the table denotes the tree. */
    ghost predicate Consistent()
      reads this`persistent, this`tree, nodes, volume, volume.sectors
    {
      Agrees() && Unique(View()) && tree == TreeOf(View())
    }

    /** The invariant of the running filesystem. */
    ghost predicate Valid()
      reads this`persistent, this`cwd, this`here, this`tree, nodes, volume, volume.sectors
    {
      && Consistent()
      && WellFormed(tree)
      && Spells(cwd, here) && IsDir(tree, here)
    }

    /** What an operation may write to besides the node table: nothing while the tree lives in RAM. */
    ghost function Media(): set<array<Sector>>
      reads this`persistent
    {
      if persistent then {volume.sectors} else {}
    }

    /** The only source of FS_RESULT_IO_ERROR outside file contents. */
    ghost predicate DiskFails()
      reads this`persistent
    {
      persistent && !volume.healthy
    }

    /** Storage operations cannot fail. */
    ghost predicate Reliable()
      reads this`persistent
    {
      if persistent then volume.healthy else memory
    }

    /** tree follows the table. */
    ghost method Denote()
      requires Agrees() && Unique(View())
      modifies this`tree
      ensures Consistent() && View() == old(View()) && tree == TreeOf(old(View()))
    {
      tree := TreeOf(View());
    }

    lemma Sound()
      requires Consistent() && WellFormed(tree)
      requires Spells(cwd, here) && IsDir(tree, here)
      ensures Valid()
    {
    }

    /** A node takes one slot. */
    lemma Bounded()
      requires Consistent()
      ensures |tree| + FreeCount(View()) == MAX_NODES && (Full(View()) <==> |tree| == MAX_NODES)
    {
      TreeSize(View());
      FullCount(View());
    }

    // ----------------------------------------------------------------
    // Mounting
    // ----------------------------------------------------------------

    ghost function Stored(): Tree
      requires volume.Valid() && VolumeOk(volume.Img(), volume.area)
      reads volume, volume.sectors
    {
      HeldTree(volume)
    }

    /**
      The volume holds t, possibly with some more base nodes; if t is safe it can be
      mounted again.
     */
    ghost predicate StillStored(t: Tree)
      reads volume, volume.sectors
    {
      && volume.Valid() && Holds(volume.Img(), volume.area, 0)
      && Unique(DiskView(volume.Img(), volume.area)) && PartlyCompleted(t, TreeOf(DiskView(volume.Img(), volume.area)))
      && (BaseSafe(t) ==> VolumeOk(volume.Img(), volume.area))
    }

    /**
      filesystem_init on a volume that is absent, denotes a tree, or is turned down. A healthy
      volume that denotes a tree is used exactly when there is a slot for every base node it
      lacks; otherwise the tree lives in RAM, while the volume keeps what it held.
     */
    constructor (volume: Volume, memory: bool)
      requires volume.Valid()
      requires volume.volumeReady ==> VolumeOk(volume.Img(), volume.area) || Unloadable(volume.Img(), volume.area)
      modifies volume.sectors
      ensures this.volume == volume && this.memory == memory && fresh(nodes)
      ensures Consistent() && (persistent ==> volume.volumeReady && old(VolumeOk(volume.Img(), volume.area)))
      ensures !persistent ==> Valid() && tree == BaseAdded(map[])
      ensures persistent ==> tree == BaseAdded(old(HeldTree(volume)))
      ensures persistent && old(BaseSafe(HeldTree(volume))) ==> Valid()
      ensures volume.volumeReady && volume.healthy && old(VolumeOk(volume.Img(), volume.area)) ==> MountedIfRoom(old(HeldTree(volume)))
      ensures volume.volumeReady && old(Unloadable(volume.Img(), volume.area)) ==> !persistent && volume.Img() == old(volume.Img())
    {
      this.volume := volume;
      this.memory := memory;
      nodes := new FsNode[MAX_NODES](_ => RESET);
      persistent, cwd, tree := volume.volumeReady, "/", map[];
      new;
      ghost var t := Load();
      BaseInvariantIff(t);
      EnterHome(t);
    }

    /** Whether a volume that can be mounted is, on healthy storage, and what it keeps if not. */
    ghost predicate MountedIfRoom(t: Tree)
      reads this`persistent, volume, volume.sectors
    {
      (persistent <==> |t| + Missing(t) <= MAX_NODES) && (!persistent ==> StillStored(t))
    }

    /** The choice of backend in filesystem_init; t is the tree that was completed. */
    method Load() returns (ghost t: Tree)
      requires Shape() && (persistent ==> VolumeOk(volume.Img(), volume.area) || Unloadable(volume.Img(), volume.area))
      requires forall i :: 0 <= i < MAX_NODES ==> nodes[i] == RESET
      modifies this`persistent, this`tree, nodes, Media()
      ensures Consistent() && tree == BaseAdded(t)
      ensures persistent ==> old(persistent) && old(VolumeOk(volume.Img(), volume.area))
      ensures t == if persistent then old(Stored()) else map[]
      ensures old(persistent) && volume.healthy && old(VolumeOk(volume.Img(), volume.area)) ==> MountedIfRoom(old(Stored()))
      ensures old(persistent && Unloadable(volume.Img(), volume.area)) ==> !persistent && volume.Img() == old(volume.Img())
    {
      var done := false;
      t := map[];
      if persistent {
        done := LoadPersistent();
      }
      if done {
        t := old(Stored());
      } else {
        LiveInRam();
      }
    }

    /** filesystem_init without a usable volume */
    method LiveInRam()
      requires Shape()
      modifies this`persistent, this`tree, nodes, Media()
      ensures Consistent() && !persistent && tree == BaseAdded(map[]) && volume.Img() == old(volume.Img())
    {
      persistent := false;
      ResetAll();
      FewAbsent(map[], BaseNodes());
      BaseSize(map[]);
      var r := CreateInitialTree();
    }

    /** reset_all_nodes, once the tree lives in RAM */
    method ResetAll()
      requires nodes.Length == MAX_NODES && volume.Valid() && !persistent
      modifies nodes, this`tree
      ensures Consistent() && tree == map[]
    {
      for i := 0 to MAX_NODES
        invariant forall j :: 0 <= j < i ==> nodes[j] == RESET
      {
        nodes[i] := RESET;
      }
      tree := map[];
      ghost var ns := nodes[..];
      assert forall j :: 0 <= j < MAX_NODES ==> ns[j] == RESET;
      ResetAgrees(ns);
      NothingHeld(View());
    }

    /** The first n cached nodes are what their slots decode to; the rest are reset. */
    ghost predicate LoadedUpTo(n: nat)
      requires Shape() && persistent && n <= MAX_NODES
      reads this`persistent, nodes, volume, volume.sectors
    {
      && (forall j :: 0 <= j < n ==> SlotLoaded(j))
      && (forall j :: n <= j < MAX_NODES ==> nodes[j] == RESET)
    }

    ghost predicate SlotLoaded(j: nat)
      requires Shape() && persistent && j < MAX_NODES
      reads this`persistent, nodes, volume, volume.sectors
    {
      && SlotLoads(volume.Img(), volume.area, j)
      && nodes[j] == Loaded(NodeAt(volume.Img(), volume.area, j).value)
    }

    /** One round of load_persistent_nodes. */
    method LoadOne(i: nat) returns (ok: bool)
      requires Shape() && persistent && i < MAX_NODES && LoadedUpTo(i)
      modifies nodes
      ensures volume.healthy ==> (ok <==> SlotLoads(volume.Img(), volume.area, i))
      ensures ok ==> LoadedUpTo(i + 1)
    {
      var node;
      ok, node := volume.ReadNode(i);
      if ok && node.used {
        ok := Acceptable(node);
        if ok {
          nodes[i] := FsNode(true, !node.file, node.path, node.size, []);
        }
      }
      if ok {
        forall j | 0 <= j < i + 1
          ensures SlotLoaded(j)
        {
          assert j < i ==> old(SlotLoaded(j));
        }
      }
    }

    /** The reading loop of load_persistent_nodes. */
    method LoadNodes() returns (ok: bool)
      requires Shape() && persistent && forall i :: 0 <= i < MAX_NODES ==> nodes[i] == RESET
      modifies nodes
      ensures volume.healthy ==> (ok <==> AllLoad(volume.Img(), volume.area))
      ensures ok ==> LoadedUpTo(MAX_NODES) && AllLoad(volume.Img(), volume.area)
    {
      ok := true;
      for i := 0 to MAX_NODES
        invariant ok && LoadedUpTo(i)
      {
        ok := LoadOne(i);
        if !ok {
          return;
        }
      }
      forall i | 0 <= i < MAX_NODES
        ensures SlotLoads(volume.Img(), volume.area, i)
      {
        assert SlotLoaded(i);
      }
    }

    /** Slots that denote a tree, once read, make a consistent table. */
    ghost method Adopt()
      requires Shape() && persistent && LoadedUpTo(MAX_NODES) && VolumeOk(volume.Img(), volume.area)
      modifies this`tree
      ensures Consistent() && tree == Stored()
    {
      ghost var ns := nodes[..];
      forall j | 0 <= j < MAX_NODES
        ensures NodeOk(ns[j], Store()) && RecordAgrees(ns[j], Store(), j)
      {
        assert SlotLoaded(j);
        LoadedAgrees(NodeAt(volume.Img(), volume.area, j).value, Store(), j);
      }
      CacheIsDisk(ns, Store());
      tree := Stored();
    }

    /** load_persistent_nodes: read every slot, require "/" if any slot is used, complete the base tree. */
    method LoadPersistent() returns (ok: bool)
      requires Shape() && persistent && (VolumeOk(volume.Img(), volume.area) || Unloadable(volume.Img(), volume.area))
      requires forall i :: 0 <= i < MAX_NODES ==> nodes[i] == RESET
      modifies nodes, Media(), this`tree
      ensures Shape()
      ensures ok ==> old(VolumeOk(volume.Img(), volume.area)) && Consistent() && tree == BaseAdded(old(Stored()))
      ensures volume.healthy && old(VolumeOk(volume.Img(), volume.area)) ==>
                && (ok <==> |old(Stored())| + Missing(old(Stored())) <= MAX_NODES)
                && (!ok ==> StillStored(old(Stored())))
      ensures old(Unloadable(volume.Img(), volume.area)) ==> !ok && volume.Img() == old(volume.Img())
    {
      if VolumeOk(volume.Img(), volume.area) {
        AllSlotsLoad(volume.Img(), volume.area);
      }
      ok := LoadNodes();
      if !ok {
        return;
      }
      ghost var good := VolumeOk(volume.Img(), volume.area);
      if good {
        Adopt();
      }
      ok := RootPresent(good);
      if ok {
        ok := Complete();
      }
    }

    /** The last step of load_persistent_nodes. */
    method Complete() returns (ok: bool)
      requires Consistent() && persistent && (tree == map[] || WellFormed(tree))
      modifies nodes, Media(), this`tree
      ensures Shape()
      ensures ok ==> Consistent() && tree == BaseAdded(old(tree))
      ensures volume.healthy ==> (ok <==> |old(tree)| + Missing(old(tree)) <= MAX_NODES) && (!ok ==> StillStored(old(tree)))
    {
      ghost var t := tree;
      var r := CreateInitialTree();
      ok := r == OK;
      if r == NO_SPACE {
        CacheIsDisk(nodes[..], Store());
        if BaseSafe(t) {
          PartlyWellFormed(t, tree);
          AgreeingVolumeOk(nodes[..], Store());
        }
      }
    }

    /** The check for "/" in load_persistent_nodes; `good` if the volume denotes a tree. */
    method RootPresent(ghost good: bool) returns (ok: bool)
      requires Shape() && persistent && LoadedUpTo(MAX_NODES) && AllLoad(volume.Img(), volume.area)
      requires good ==> Consistent() && (tree == map[] || WellFormed(tree))
      ensures good ==> ok
      ensures NoRoot(volume.Img(), volume.area) ==> !ok
    {
      var any := exists i :: 0 <= i < MAX_NODES && nodes[i].used;
      var root := FindText("/");
      if good {
        RootFound(any, root);
      }
      if NoRoot(volume.Img(), volume.area) {
        RootLacking(any, root);
      }
      ok := !any || (root >= 0 && nodes[root].dir);
    }

    lemma RootFound(any: bool, root: int)
      requires Consistent() && (tree == map[] || WellFormed(tree)) && FoundText("/", root)
      requires any == exists i :: 0 <= i < MAX_NODES && nodes[i].used
      ensures any ==> root >= 0 && nodes[root].dir
    {
      RenderSpells([]);
      Located("/", [], root);
      if any {
        var i :| 0 <= i < MAX_NODES && nodes[i].used;
        NodeFacts(i, "/", []);
        TreeAt(View(), i);
      }
    }

    lemma RootLacking(any: bool, root: int)
      requires Shape() && persistent && LoadedUpTo(MAX_NODES) && AllLoad(volume.Img(), volume.area)
      requires NoRoot(volume.Img(), volume.area) && FoundText("/", root)
      requires any == exists i :: 0 <= i < MAX_NODES && nodes[i].used
      ensures any && !(root >= 0 && nodes[root].dir)
    {
      var i :| 0 <= i < MAX_NODES && SlotLoads(volume.Img(), volume.area, i) && NodeAt(volume.Img(), volume.area, i).value.used;
      assert SlotLoaded(i);
      if root >= 0 {
        assert SlotLoaded(root);
      }
    }

    /** create_initial_tree */
    method CreateInitialTree() returns (r: FsResult)
      requires Consistent()
      modifies nodes, Media(), this`tree
      ensures r in {OK, NO_SPACE, IO_ERROR} && Shape() && (r == IO_ERROR ==> DiskFails())
      ensures r != IO_ERROR ==> Consistent() && BaseOutcome(r == OK, old(tree), tree)
    {
      ghost var t := tree;
      assert BaseNodes()[..0] == [];
      for i := 0 to BASE_COUNT
        invariant Consistent() && tree == Completed(t, BaseNodes()[..i])
      {
        CompletedSnoc(t, BaseNodes(), i);
        r := AddBase(i);
        if r != OK && r != ALREADY_EXISTS {
          if r == NO_SPACE {
            BaseStuck(t, tree, i);
          }
          return;
        }
      }
      Bounded();
      BaseDone(t, tree);
      r := OK;
    }

    /** One round of create_initial_tree. */
    method AddBase(i: nat) returns (r: FsResult)
      requires Consistent() && i < BASE_COUNT
      modifies nodes, Media(), this`tree
      ensures r in {OK, ALREADY_EXISTS, NO_SPACE, IO_ERROR} && Shape() && (r == IO_ERROR ==> DiskFails())
      ensures r != IO_ERROR ==> Consistent()
      ensures r == NO_SPACE ==> BasePath(i) !in old(tree) && |old(tree)| == MAX_NODES && tree == old(tree)
      ensures r == OK || r == ALREADY_EXISTS ==> tree == AddMissing(old(tree), BaseNodes()[i])
    {
      BasePathOk(i);
      RenderSpells(BasePath(i));
      r := AddEntry(Render(BasePath(i)), IsBaseDir(i), BasePath(i));
    }

    /** The last step of filesystem_init: start in the home directory if there is one. */
    method EnterHome(ghost t: Tree)
      requires Consistent() && tree == BaseAdded(t)
      modifies this`cwd, this`here
      ensures WellFormed(tree) && BaseSafe(t) ==> Valid()
    {
      HomeIsPath();
      RenderSpells(Home());
      RenderSpells([]);
      if BaseSafe(t) {
        HomeIsBase(t);
      }
      var index := FindNode(Render(Home()), Home());
      Enter(if index >= 0 then Render(Home()) else "/", if index >= 0 then Home() else []);
    }

    method Enter(path: string, ghost p: Path)
      requires Consistent() && Spells(path, p)
      modifies this`cwd, this`here
      ensures cwd == path && here == p && (WellFormed(tree) && IsDir(tree, p) ==> Valid())
    {
      cwd, here := path, p;
    }

    // ----------------------------------------------------------------
    // Searching
    // ----------------------------------------------------------------

    /** index is the first slot whose text is path, or -1. */
    ghost predicate FoundText(path: string, index: int)
      reads nodes
    {
      && nodes.Length == MAX_NODES && -1 <= index < MAX_NODES
      && (index >= 0 ==> nodes[index].used && nodes[index].path == path)
      && (index < 0 ==> forall j :: 0 <= j < MAX_NODES && nodes[j].used ==> nodes[j].path != path)
    }

    /** find_node, on texts */
    method FindText(path: string) returns (index: int)
      requires nodes.Length == MAX_NODES
      ensures FoundText(path, index)
    {
      for i := 0 to MAX_NODES
        invariant forall j :: 0 <= j < i && nodes[j].used ==> nodes[j].path != path
      {
        if nodes[i].used && nodes[i].path == path {
          return i;
        }
      }
      index := -1;
    }

    /** What a found text means in a table that denotes a tree. */
    lemma Located(path: string, p: Path, index: int)
      requires Consistent() && Spells(path, p) && FoundText(path, index)
      ensures index < 0 <==> p !in tree
      ensures index >= 0 ==> At(View(), index, p) && nodes[index].dir == tree[p].dir
    {
      if index >= 0 {
        assert nodes[..][index] == nodes[index];
        TreeAt(View(), index);
      } else {
        forall i | 0 <= i < MAX_NODES && View()[i].Node?
          ensures View()[i].path != p
        {
          assert nodes[..][i] == nodes[i];
          assert NodeOk(nodes[i], Store());
        }
        NotHeld(View(), p);
      }
    }

    /** find_node */
    method FindNode(path: string, ghost p: Path) returns (index: int)
      requires Consistent() && Spells(path, p)
      ensures -1 <= index < MAX_NODES && (index < 0 <==> p !in tree)
      ensures index >= 0 ==> At(View(), index, p) && nodes[index].dir == tree[p].dir
    {
      index := FindText(path);
      Located(path, p, index);
    }

    /** find_free_node */
    method FindFree() returns (index: int)
      requires Consistent()
      ensures -1 <= index < MAX_NODES
      ensures index >= 0 ==> View()[index].Free?
      ensures index < 0 <==> Full(View())
    {
      for i := 0 to MAX_NODES
        invariant forall j :: 0 <= j < i ==> nodes[j].used
      {
        if !nodes[i].used {
          assert nodes[..][i] == nodes[i];
          return i;
        }
      }
      assert forall i :: 0 <= i < MAX_NODES ==> nodes[..][i].used;
      index := -1;
    }

    /** count_free_nodes */
    method CountFree() returns (count: nat)
      requires Consistent()
      ensures count == FreeCount(View()) == MAX_NODES - |tree|
    {
      count := 0;
      ghost var v := View();
      for i := 0 to MAX_NODES
        invariant count == FreeCount(v[..i])
      {
        assert v[..i + 1][..i] == v[..i];
        assert nodes[..][i] == nodes[i];
        if !nodes[i].used {
          count := count + 1;
        }
      }
      assert v[..MAX_NODES] == v;
      Bounded();
    }

    // ----------------------------------------------------------------
    // Single-slot updates
    // ----------------------------------------------------------------

    /** persist_node, after the cached node i has been set to n. */
    method Persist(i: nat, n: FsNode, ghost ns: seq<FsNode>) returns (ok: bool)
      requires Shape() && i < MAX_NODES && Agree(ns, Store())
      requires nodes[..] == ns[i := n]
      requires n.used && NodeOk(n, Store())
      modifies Media()
      ensures Shape() && (!DiskFails() ==> ok)
      ensures ok ==> Agrees() && NodeOk(n, Store())
      ensures ok ==> View() == ViewOf(ns, old(Store()))[i := old(SlotView(n, Store(), i))]
    {
      ok := true;
      if persistent {
        ok := volume.WriteNode(i, RecordOf(n));
        if !ok {
          return;
        }
      }
      ReplaceNode(ns, old(Store()), Store(), i, n);
      if persistent {
        RecordKeepsFile(old(volume.Img()), volume.Img(), volume.area, i, n.size);
      }
    }

    /** add_node_absolute; k is the slot that was filled. */
    method AddNode(path: string, dir: bool, ghost p: Path) returns (r: FsResult, ghost k: nat)
      requires Consistent() && Spells(path, p)
      modifies nodes, Media(), this`tree
      ensures r in {OK, ALREADY_EXISTS, NO_SPACE, INVALID_PATH, IO_ERROR}
      ensures r == ALREADY_EXISTS <==> p in old(tree)
      ensures r == NO_SPACE <==> p !in old(tree) && Full(old(View()))
      ensures r == INVALID_PATH ==> |path| >= PATH_MAX
      ensures Shape() && (r == IO_ERROR ==> DiskFails())
      ensures r != IO_ERROR ==> Consistent()
      ensures r != IO_ERROR && r != OK ==> View() == old(View()) && tree == old(tree)
      ensures r == OK ==> k < MAX_NODES && old(View())[k].Free?
      ensures r == OK ==> View() == old(View())[k := Node(p, dir, [])] && tree == old(tree)[p := Entry(dir, [])]
    {
      k := 0;
      var found := FindNode(path, p);
      if found >= 0 {
        return ALREADY_EXISTS, 0;
      }
      var index := FindFree();
      if index < 0 {
        return NO_SPACE, 0;
      }
      k := index;
      if |path| >= PATH_MAX {
        RefuseLong(index, path);
        return INVALID_PATH, 0;
      }
      r := FillSlot(index, path, dir, p);
    }

    /** The refusal of a path that does not fit: the slot stays unused. */
    method RefuseLong(index: nat, path: string)
      requires Consistent() && index < MAX_NODES && View()[index].Free? && |path| >= PATH_MAX
      modifies nodes
      ensures Consistent() && View() == old(View())
    {
      ghost var v, ns := View(), nodes[..];
      assert NodeOk(ns[index], Store());
      nodes[index] := RESET.(path := path[..PATH_MAX - 1]);
      ReplaceNode(ns, Store(), Store(), index, nodes[index]);
      assert nodes[..] == ns[index := nodes[index]];
      assert v[index := Free] == v;
    }

    method FillSlot(index: nat, path: string, dir: bool, ghost p: Path) returns (r: FsResult)
      requires Consistent() && Spells(path, p) && |path| < PATH_MAX && p !in tree
      requires index < MAX_NODES && View()[index].Free?
      modifies nodes, Media(), this`tree
      ensures r in {OK, IO_ERROR}
      ensures Shape() && (r == IO_ERROR ==> DiskFails())
      ensures r == OK ==> Consistent() && View() == old(View())[index := Node(p, dir, [])]
      ensures r == OK ==> tree == old(tree)[p := Entry(dir, [])]
    {
      ghost var v, ns := View(), nodes[..];
      nodes[index] := FsNode(true, dir, path, 0, []);
      var ok := Persist(index, nodes[index], ns);
      if !ok {
        nodes[index] := RESET;
        return IO_ERROR;
      }
      AddSlot(v, index, Node(p, dir, []));
      tree := tree[p := Entry(dir, [])];
      r := OK;
    }

    /** add_node_absolute on the tree, for a path that fits. */
    method AddEntry(path: string, dir: bool, ghost p: Path) returns (r: FsResult)
      requires Consistent() && Spells(path, p) && |path| < PATH_MAX
      modifies nodes, Media(), this`tree
      ensures r in {OK, ALREADY_EXISTS, NO_SPACE, IO_ERROR}
      ensures Shape() && (r == IO_ERROR ==> DiskFails())
      ensures r != IO_ERROR ==> Consistent() && tree == if r == OK then old(tree)[p := Entry(dir, [])] else old(tree)
      ensures r == ALREADY_EXISTS <==> p in old(tree)
      ensures r == NO_SPACE <==> p !in old(tree) && |old(tree)| == MAX_NODES
    {
      Bounded();
      ghost var k;
      r, k := AddNode(path, dir, p);
    }

    /** reset_node after clear_persisted_node */
    method ClearSlot(i: nat) returns (ok: bool)
      requires Agrees() && i < MAX_NODES
      modifies nodes, Media()
      ensures Shape() && (Reliable() ==> ok)
      ensures ok ==> Agrees() && View() == old(View())[i := Free]
    {
      ok := true;
      if persistent {
        ok := volume.ClearNode(i);
        if !ok {
          return;
        }
      }
      nodes[i] := RESET;
      ReplaceNode(old(nodes[..]), old(Store()), Store(), i, RESET);
      assert nodes[..] == old(nodes[..])[i := RESET];
    }

    /** One round of the move loop: rename the node in place, then persist it. */
    method RenameSlot(i: nat, path: string, ghost p: Path) returns (ok: bool)
      requires Agrees() && i < MAX_NODES
      requires nodes[i].used && Spells(path, p) && |path| < PATH_MAX
      modifies nodes, Media()
      ensures Shape() && (Reliable() ==> ok)
      ensures ok ==> Agrees() && View() == old(View())[i := old(View())[i].(path := p)]
    {
      var was := nodes[i];
      assert NodeOk(nodes[..][i], Store());
      nodes[i] := was.(path := path);
      ok := Persist(i, nodes[i], old(nodes[..]));
      if !ok {
        nodes[i] := was;
      }
    }

    /** backend_read_file */
    method BackendRead(i: nat, capacity: nat) returns (ok: bool, data: seq<byte>)
      requires Agrees() && i < MAX_NODES && View()[i].Node? && !View()[i].dir
      ensures ok ==> data == View()[i].data
      ensures Reliable() ==> (ok <==> |View()[i].data| <= capacity)
      ensures !persistent ==> (ok <==> |View()[i].data| <= capacity)
    {
      assert NodeOk(nodes[..][i], Store()) && RecordAgrees(nodes[..][i], Store(), i);
      if persistent {
        ok, data := volume.ReadFile(i, capacity);
        return;
      }
      if nodes[i].size > capacity {
        return false, [];
      }
      ok, data := true, nodes[i].ram;
    }

    /** backend_write_file */
    method BackendWrite(i: nat, data: seq<byte>) returns (ok: bool)
      requires Agrees() && i < MAX_NODES && View()[i].Node? && !View()[i].dir
      modifies nodes, Media()
      ensures Shape() && (Reliable() ==> (ok <==> |data| <= FILE_MAX))
      ensures ok || !persistent ==> Agrees()
      ensures ok ==> |data| <= FILE_MAX && View() == old(View())[i := old(View())[i].(data := data)]
      ensures !ok && !persistent ==> View() == old(View())
    {
      assert NodeOk(nodes[..][i], Store()) && RecordAgrees(nodes[..][i], Store(), i);
      if persistent {
        ok := volume.WriteFile(i, data);
        if !ok {
          return;
        }
        nodes[i] := nodes[i].(size := |data|);
      } else {
        ok := |data| <= FILE_MAX;
        if ok && |data| > 0 && !memory {
          ok := *;
        }
        if !ok {
          return;
        }
        nodes[i] := nodes[i].(ram := data, size := |data|);
      }
      ReplaceNode(old(nodes[..]), old(Store()), Store(), i, nodes[i]);
      assert nodes[..] == old(nodes[..])[i := nodes[i]];
    }

    // ----------------------------------------------------------------
    // Directories
    // ----------------------------------------------------------------

    /** ensure_directory_absolute has created the directories on the way to the prefix q of p. */
    ghost predicate Reached(t: Tree, p: Path, q: Path)
      reads this`persistent, this`tree, nodes, volume, volume.sectors
    {
      Consistent() && q <= p && NoFileOnWay(t, q) && tree == WithDirs(t, q)
    }

    /** ensure_directory_absolute */
    method EnsureDirectory(path: string, ghost p: Path) returns (r: FsResult)
      requires Valid() && Spells(path, p) && |path| < PATH_MAX
      modifies nodes, Media(), this`tree
      ensures r == IO_ERROR ==> !Reliable()
      ensures r != IO_ERROR ==> Valid() && DirsMade(r, old(tree), tree, p)
    {
      ghost var t := tree;
      if path == "/" {
        RenderNotRoot(p);
        Bounded();
        AllMade(t, p);
        return OK;
      }
      r := EnsurePrefixes(path, t, p);
      if r != IO_ERROR {
        RenderSpells(p);
        DirsMadeKeeps(r, t, tree, p, here);
      }
    }

    method EnsurePrefixes(path: string, ghost t: Tree, ghost p: Path) returns (r: FsResult)
      requires Consistent() && WellFormed(tree) && tree == t && Spells(path, p) && |path| < PATH_MAX
      modifies nodes, Media(), this`tree
      ensures r == IO_ERROR ==> !Reliable()
      ensures r != IO_ERROR ==> Consistent() && DirsMade(r, t, tree, p)
    {
      assert path[0..] == path;
      var cursor := SkipSlashes(path, 0);
      RenderSpells([]);
      assert [] + p == p;
      r := EnsureEach(path, cursor, t, p);
    }

    /** The loop of ensure_directory_absolute. */
    method EnsureEach(path: string, start: nat, ghost t: Tree, ghost p: Path) returns (r: FsResult)
      requires WellFormed(t) && Spells(path, p) && |path| < PATH_MAX
      requires Scanned(path, start, "/", p, []) && Reached(t, p, [])
      modifies nodes, Media(), this`tree
      ensures r == IO_ERROR ==> !Reliable()
      ensures r != IO_ERROR ==> Consistent() && DirsMade(r, t, tree, p)
    {
      var current, cursor := "/", start;
      ghost var reached: Path := [];
      r := OK;
      while cursor < |path|
        invariant Scanned(path, cursor, current, p, reached) && Reached(t, p, reached)
      {
        ghost var q;
        cursor, current, q := NextPrefix(path, cursor, current, p, reached);
        r := EnsureOne(current, t, p, q);
        if r != OK {
          return;
        }
        reached := q;
      }
      assert path[cursor..] == "" && reached + [] == reached;
      Bounded();
      AllMade(t, p);
      r := OK;
    }

    /** One component of ensure_directory_absolute: accept a directory or create it. */
    method EnsureOne(current: string, ghost t: Tree, ghost p: Path, ghost q: Path) returns (r: FsResult)
      requires WellFormed(t) && q <= p && q != [] && Spells(current, q) && |current| < PATH_MAX
      requires Reached(t, p, Parent(q))
      modifies nodes, Media(), this`tree
      ensures r == IO_ERROR ==> !Reliable()
      ensures r == OK ==> Reached(t, p, q)
      ensures r != OK && r != IO_ERROR ==> Consistent() && DirsMade(r, t, tree, p)
    {
      WithDirsMeaning(t, Parent(q), q);
      var index := FindNode(current, q);
      if index >= 0 {
        if !nodes[index].dir {
          FileInTheWay(t, p, q);
          return NOT_DIRECTORY;
        }
        return OK;
      }
      r := CreateOne(current, t, p, q);
    }

    method CreateOne(current: string, ghost t: Tree, ghost p: Path, ghost q: Path) returns (r: FsResult)
      requires WellFormed(t) && q <= p && q != [] && Spells(current, q) && |current| < PATH_MAX
      requires Reached(t, p, Parent(q)) && q !in tree
      modifies nodes, Media(), this`tree
      ensures r == IO_ERROR ==> !Reliable()
      ensures r == OK ==> Reached(t, p, q)
      ensures r != OK && r != IO_ERROR ==> Consistent() && DirsMade(r, t, tree, p)
    {
      WithDirsMeaning(t, Parent(q), q);
      r := AddEntry(current, true, q);
      if r == NO_SPACE {
        NoSlotLeft(t, p, q);
      }
    }

    // ----------------------------------------------------------------
    // Moving
    // ----------------------------------------------------------------

    /** The strings of the cache spell the paths of the table. */
    lemma NodeFacts(i: nat, base: string, b: Path)
      requires Agrees() && i < MAX_NODES && Spells(base, b)
      ensures nodes[i].used <==> View()[i].Node?
      ensures nodes[i].used ==> Spells(nodes[i].path, View()[i].path)
      ensures nodes[i].used ==> |nodes[i].path| < PATH_MAX && nodes[i].dir == View()[i].dir
      ensures nodes[i].used && IsInside(base, nodes[i].path) <==> Under(View()[i], b)
    {
      assert nodes[..][i] == nodes[i];
      assert NodeOk(nodes[..][i], Store());
      if nodes[i].used {
        InsideIsPrefix(b, Components(nodes[i].path));
      }
    }

    /** The refusals of move (root = true) and copy that come before anything is created, and the parent of dst. */
    method CheckPaths(src: string, dst: string, root: bool, ghost s: Path, ghost d: Path)
      returns (refused: Option<FsResult>, parent: string)
      requires Valid() && Spells(src, s) && Spells(dst, d)
      ensures refused == Refusal(tree, s, d, root)
      ensures refused.None? ==> d != [] && Spells(parent, Parent(d)) && |parent| < |dst|
    {
      parent := "";
      RenderNotRoot(s);
      var index := FindNode(src, s);
      if index < 0 { return Some(NOT_FOUND), ""; }
      if root && src == "/" { return Some(BUSY), ""; }
      var taken := FindNode(dst, d);
      if taken >= 0 { return Some(ALREADY_EXISTS), ""; }
      InsideIsPrefix(s, d);
      if nodes[index].dir && IsInside(src, dst) { return Some(INVALID_PATH), ""; }
      var hasParent;
      hasParent, parent := GetParentPath(dst, d);
      refused := None;
    }

    /** The same from the names as given; the resolved paths otherwise. */
    method CheckNames(source: string, destination: string, root: bool)
      returns (refused: Option<FsResult>, src: string, dst: string, parent: string)
      requires Valid() && IsText(source) && IsText(destination)
      ensures refused == NamesRefused(tree, here, source, destination, root)
      ensures var c := here; var s, d := Meaning(c, source), Meaning(c, destination);
              refused.None? ==>
                && Resolvable(c, source, PATH_MAX) && Resolvable(c, destination, PATH_MAX)
                && Spells(src, s) && Spells(dst, d) && |dst| < PATH_MAX
                && d != [] && Spells(parent, Parent(d)) && |parent| < |dst|
    {
      ghost var c := here;
      src, dst, parent := "", "", "";
      var both := ResolvePair(cwd, source, destination, PATH_MAX, c);
      if both.None? { return Some(INVALID_PATH), "", "", ""; }
      src, dst := both.value.0, both.value.1;
      refused, parent := CheckPaths(src, dst, root, Meaning(c, source), Meaning(c, destination));
    }

    /** One round of that loop: would the path in slot i fit? */
    method FitsAt(i: nat, src: string, dst: string, ghost s: Path, ghost d: Path) returns (ok: bool)
      requires Agrees() && Spells(src, s) && Spells(dst, d) && s != [] && d != [] && i < MAX_NODES
      ensures ok == SlotFits(View()[i], s, d)
    {
      NodeFacts(i, src, s);
      ok := true;
      if nodes[i].used && IsInside(src, nodes[i].path) {
        RebaseSpells(nodes[i].path, src, dst, View()[i].path, s, d);
        ok := |dst| + |nodes[i].path[|src|..]| < PATH_MAX;
      }
    }

    /** The first loop of move and copy: does every rebased path fit? */
    method CheckLengths(src: string, dst: string, ghost s: Path, ghost d: Path) returns (ok: bool)
      requires Consistent() && Spells(src, s) && Spells(dst, d) && s != [] && d != []
      ensures ok <==> AllFitAt(tree, s, d)
    {
      ghost var v := View();
      for i := 0 to MAX_NODES
        invariant FitUpTo(v, i, s, d)
      {
        ok := FitsAt(i, src, dst, s, d);
        if !ok {
          Misfit(v, i, s, d);
          return;
        }
        FitStep(v, i, s, d);
      }
      ok := true;
      FitAll(v, s, d);
    }

    /** The renaming loop: slots below i are rebased, the others untouched. */
    method RenameAll(src: string, dst: string, ghost s: Path, ghost d: Path) returns (ok: bool)
      requires Consistent() && Spells(src, s) && Spells(dst, d) && s != [] && d != []
      requires AllFitAt(tree, s, d)
      modifies nodes, Media()
      ensures Shape() && (Reliable() ==> ok)
      ensures ok ==> Agrees() && View() == Renamed(old(View()), s, d)
    {
      ghost var v := View();
      for i := 0 to MAX_NODES
        invariant Agrees()
        invariant forall j :: 0 <= j < MAX_NODES ==> View()[j] == if j < i then MovedSlot(v[j], s, d) else v[j]
      {
        NodeFacts(i, src, s);
        if nodes[i].used && IsInside(src, nodes[i].path) {
          TreeAt(v, i);
          RebaseSpells(nodes[i].path, src, dst, v[i].path, s, d);
          var target := dst + nodes[i].path[|src|..];
          ok := RenameSlot(i, target, Rebase(v[i].path, s, d));
          if !ok {
            return;
          }
        }
      }
      ok := true;
      assert View() == Renamed(v, s, d);
    }

    /** Renaming every node under s moves the subtree. */
    method MoveNodes(src: string, dst: string, ghost s: Path, ghost d: Path) returns (ok: bool)
      requires Consistent() && Spells(src, s) && Spells(dst, d) && Movable(tree, s, d)
      modifies nodes, Media(), this`tree
      ensures Shape() && (Reliable() ==> ok)
      ensures ok ==> Consistent() && IsMove(old(tree), tree, s, d)
    {
      ghost var v := View();
      RenamedTree(v, s, d);
      ok := RenameAll(src, dst, s, d);
      if ok {
        Denote();
      }
    }

    /** The current directory as it will be called after the move. */
    method RebasedCurrent(src: string, dst: string, ghost s: Path, ghost d: Path) returns (r: string)
      requires Spells(cwd, here) && Spells(src, s) && Spells(dst, d) && s != [] && d != []
      ensures Spells(r, Moved(here, s, d))
    {
      ghost var c := here;
      InsideIsPrefix(s, c);
      r := cwd;
      if IsInside(src, cwd) {
        RebaseSpells(cwd, src, dst, c, s, d);
        r := dst + cwd[|src|..];
      }
    }

    /** The renaming loop and the update of the current directory. */
    method MoveSubtree(src: string, dst: string, ghost s: Path, ghost d: Path) returns (r: FsResult)
      requires Valid() && Spells(src, s) && Spells(dst, d) && Movable(tree, s, d)
      modifies nodes, Media(), this`tree, this`cwd, this`here
      ensures r in {OK, IO_ERROR} && (r == IO_ERROR ==> !Reliable())
      ensures r == OK ==> Valid() && IsMove(old(tree), tree, s, d) && here == Moved(old(here), s, d)
    {
      ghost var c, u := here, tree;
      var newCurrent := RebasedCurrent(src, dst, s, d);
      var ok := MoveNodes(src, dst, s, d);
      if !ok {
        return IO_ERROR;
      }
      MoveKeeps(u, tree, s, d, c);
      Enter(newCurrent, Moved(c, s, d));
      r := OK;
    }

    /** The second half of filesystem_move, once the destination directory exists. */
    method MoveInto(src: string, dst: string, ghost s: Path, ghost d: Path) returns (r: FsResult)
      requires Valid() && Spells(src, s) && Spells(dst, d) && Ready(tree, s, d)
      modifies nodes, Media(), this`tree, this`cwd, this`here
      ensures r == IO_ERROR ==> !Reliable()
      ensures r != IO_ERROR ==> Valid() && MovedInto(r, old(tree), tree, s, d)
      ensures r != IO_ERROR ==> Followed(r, old(here), here, s, d)
    {
      var fits := CheckLengths(src, dst, s, d);
      if !fits {
        return INVALID_PATH;
      }
      r := MoveSubtree(src, dst, s, d);
    }

    /** filesystem_move, once both names have passed the checks. */
    method MoveChecked(src: string, dst: string, parent: string, ghost s: Path, ghost d: Path) returns (r: FsResult)
      requires Valid() && Spells(src, s) && Spells(dst, d) && |dst| < PATH_MAX && d != []
      requires Refusal(tree, s, d, true).None? && Spells(parent, Parent(d)) && |parent| < |dst|
      modifies nodes, Media(), this`tree, this`cwd, this`here
      ensures r == IO_ERROR ==> !Reliable()
      ensures r != IO_ERROR ==> Valid() && MoveOutcome(r, old(tree), tree, s, d)
      ensures r != IO_ERROR ==> Followed(r, old(here), here, s, d)
    {
      ghost var t := tree;
      r := EnsureDirectory(parent, Parent(d));
      if r == OK {
        RenderSpells(d);
        ReadyAfter(t, s, d);
        r := MoveInto(src, dst, s, d);
        if r != IO_ERROR {
          MoveFinished(r, t, tree, s, d);
        }
      } else if r != IO_ERROR {
        Unprepared(r, t, tree, s, d);
      }
    }

    /** filesystem_move */
    method Move(source: string, destination: string) returns (r: FsResult)
      requires Valid() && IsText(source) && IsText(destination)
      modifies nodes, Media(), this`tree, this`cwd, this`here
      ensures r == IO_ERROR ==> !Reliable()
      ensures r != IO_ERROR ==> Valid() && MoveServed(r, old(tree), tree, old(here), source, destination)
      ensures var c := old(here);
              r != IO_ERROR ==> Followed(r, c, here, Meaning(c, source), Meaning(c, destination))
    {
      ghost var t, c := tree, here;
      var refused, src, dst, parent := CheckNames(source, destination, true);
      if refused.Some? {
        RefusedNames(tree, c, source, destination);
        return refused.value;
      }
      r := MoveChecked(src, dst, parent, Meaning(c, source), Meaning(c, destination));
      if r != IO_ERROR {
        MoveNamed(r, t, tree, c, source, destination);
      }
    }

    // ----------------------------------------------------------------
    // Copying
    // ----------------------------------------------------------------

    /** The counting loop of filesystem_copy. */
    method CountUnder(src: string, ghost s: Path) returns (required: nat)
      requires Consistent() && Spells(src, s)
      ensures required == UnderCount(View(), s) == |Below(tree, s)|
    {
      required := 0;
      ghost var v := View();
      for i := 0 to MAX_NODES
        invariant required == UnderCount(v[..i], s)
      {
        UnderCountSnoc(v, s, i);
        NodeFacts(i, src, s);
        if nodes[i].used && IsInside(src, nodes[i].path) {
          required := required + 1;
        }
      }
      assert v[..MAX_NODES] == v;
      UnderIsBelow(v, s);
    }

    lemma DirHasNoData(i: nat)
      requires Agrees() && i < MAX_NODES && View()[i].Node?
      ensures View()[i].dir ==> View()[i].data == []
      ensures !View()[i].dir ==> |View()[i].data| == nodes[i].size <= FILE_MAX
    {
      assert nodes[..][i] == nodes[i];
      assert NodeOk(nodes[..][i], Store());
    }

    /** One round of the copy loop: read node i, create its target in slot k, write the bytes. */
    method CopyOne(i: nat, target: string, ghost tp: Path) returns (r: FsResult, ghost k: nat)
      requires Consistent() && i < MAX_NODES && nodes[i].used && View()[i].Node?
      requires Spells(target, tp) && |target| < PATH_MAX && tp !in tree && !Full(View())
      modifies nodes, Media(), this`tree
      ensures r in {OK, IO_ERROR}
      ensures r == IO_ERROR ==> !Reliable()
      ensures r == OK ==> k < MAX_NODES && old(View())[k].Free? && Consistent()
      ensures r == OK ==> View() == old(View())[k := old(View())[i].(path := tp)]
    {
      ghost var w := View();
      k := 0;
      assert nodes[..][i] == nodes[i];
      DirHasNoData(i);
      var dir, size := nodes[i].dir, nodes[i].size;
      var data: seq<byte> := [];
      if !dir && size > 0 {
        var ok;
        ok, data := BackendRead(i, FILE_MAX);
        if !ok || |data| != size {
          return IO_ERROR, k;
        }
      }
      r, k := AddNode(target, dir, tp);
      if r != OK || dir {
        return;
      }
      r := FillCopy(target, data, k, tp);
      assert r == OK ==> View() == w[k := w[i].(path := tp)];
    }

    /** find_node(target) and backend_write_file, right after the target was created in slot k. */
    method FillCopy(target: string, data: seq<byte>, ghost k: nat, ghost tp: Path) returns (r: FsResult)
      requires Consistent() && Spells(target, tp) && |data| <= FILE_MAX
      requires k < MAX_NODES && View()[k] == Node(tp, false, [])
      modifies nodes, Media(), this`tree
      ensures r in {OK, IO_ERROR}
      ensures r == IO_ERROR ==> !Reliable()
      ensures r == OK ==> Consistent() && View() == old(View())[k := Node(tp, false, data)]
    {
      ghost var v := View();
      TreeAt(v, k);
      var index := FindNode(target, tp);
      OneSlot(v, index, k);
      var ok := BackendWrite(index, data);
      if !ok {
        return IO_ERROR;
      }
      SetSlotData(v, index, data);
      Denote();
      r := OK;
    }

    /** The copying loop. */
    method CopyNodes(src: string, dst: string, ghost s: Path, ghost d: Path) returns (r: FsResult)
      requires Consistent() && Spells(src, s) && Spells(dst, d) && Movable(tree, s, d)
      requires UnderCount(View(), s) <= FreeCount(View())
      modifies nodes, Media(), this`tree
      ensures r in {OK, IO_ERROR}
      ensures r == IO_ERROR ==> !Reliable()
      ensures r == OK ==> Consistent() && CopyInProgress(old(View()), View(), MAX_NODES, s, d)
    {
      ghost var v := View();
      r := OK;
      for i := 0 to MAX_NODES
        invariant r == OK && Consistent() && CopyInProgress(v, View(), i, s, d)
        invariant FreeCount(View()) + UnderCount(v[..i], s) == FreeCount(v)
      {
        NodeFacts(i, src, s);
        NeverRecopied(v, View(), i, s, d);
        UnderCountSnoc(v, s, i);
        if nodes[i].used && IsInside(src, nodes[i].path) {
          r := CopyRound(i, src, dst, v, s, d);
          if r != OK {
            return;
          }
        } else {
          CopySkip(v, View(), i, s, d);
        }
      }
    }

    method CopyRound(i: nat, src: string, dst: string, ghost v: Table, ghost s: Path, ghost d: Path) returns (r: FsResult)
      requires Consistent() && Spells(src, s) && Spells(dst, d)
      requires i < MAX_NODES && CopyInProgress(v, View(), i, s, d) && Movable(TreeOf(v), s, d)
      requires nodes[i].used && Under(View()[i], s) && Under(v[i], s)
      requires FreeCount(View()) + UnderCount(v[..i], s) == FreeCount(v) && UnderCount(v, s) <= FreeCount(v)
      modifies nodes, Media(), this`tree
      ensures r in {OK, IO_ERROR}
      ensures r == IO_ERROR ==> !Reliable()
      ensures r == OK ==> Consistent() && CopyInProgress(v, View(), i + 1, s, d)
      ensures r == OK ==> FreeCount(View()) + UnderCount(v[..i], s) + 1 == FreeCount(v)
    {
      ghost var w := View();
      ghost var tp := Rebase(v[i].path, s, d);
      NodeFacts(i, src, s);
      TreeAt(v, i);
      RebaseSpells(nodes[i].path, src, dst, v[i].path, s, d);
      var target := dst + nodes[i].path[|src|..];
      TargetIsNew(v, w, i, s, d);
      UnderCountSnoc(v, s, i);
      UnderCountGrows(v, s, i + 1);
      FullCount(w);
      ghost var k;
      r, k := CopyOne(i, target, tp);
      if r == OK {
        CopyStep(v, w, i, k, s, d);
        FillLowersFree(w, k, MovedSlot(v[i], s, d));
      }
    }

    /** A finished copying loop has copied the subtree. */
    method CopySubtree(src: string, dst: string, ghost s: Path, ghost d: Path) returns (r: FsResult)
      requires Valid() && Spells(src, s) && Spells(dst, d) && Movable(tree, s, d)
      requires |tree| + |Below(tree, s)| <= MAX_NODES
      modifies nodes, Media(), this`tree
      ensures r in {OK, IO_ERROR} && (r == IO_ERROR ==> !Reliable())
      ensures r == OK ==> Valid() && IsCopy(old(tree), tree, s, d)
    {
      ghost var u, v := tree, View();
      TreeSize(v);
      UnderIsBelow(v, s);
      r := CopyNodes(src, dst, s, d);
      if r == OK {
        CopyDone(v, View(), s, d);
        CopyKeeps(u, tree, s, d, here);
        Sound();
      }
    }

    /** The two checks of filesystem_copy once the destination directory exists. */
    method CheckRoom(src: string, dst: string, ghost s: Path, ghost d: Path) returns (r: FsResult)
      requires Consistent() && Spells(src, s) && Spells(dst, d) && s != [] && d != []
      ensures r == RoomAnswer(tree, s, d)
    {
      var required := CountUnder(src, s);
      var free := CountFree();
      if free < required {
        return NO_SPACE;
      }
      var fits := CheckLengths(src, dst, s, d);
      r := if fits then OK else INVALID_PATH;
    }

    /** The second half of filesystem_copy, once the destination directory exists. */
    method CopyInto(src: string, dst: string, ghost s: Path, ghost d: Path) returns (r: FsResult)
      requires Valid() && Spells(src, s) && Spells(dst, d) && Ready(tree, s, d)
      modifies nodes, Media(), this`tree
      ensures r == IO_ERROR ==> !Reliable()
      ensures r != IO_ERROR ==> Valid() && CopiedInto(r, old(tree), tree, s, d)
    {
      r := CheckRoom(src, dst, s, d);
      if r == OK {
        r := CopySubtree(src, dst, s, d);
      }
    }

    /** filesystem_copy, once both names have passed the checks. */
    method CopyChecked(src: string, dst: string, parent: string, ghost s: Path, ghost d: Path) returns (r: FsResult)
      requires Valid() && Spells(src, s) && Spells(dst, d) && |dst| < PATH_MAX && d != []
      requires Refusal(tree, s, d, false).None? && Spells(parent, Parent(d)) && |parent| < |dst|
      modifies nodes, Media(), this`tree
      ensures r == IO_ERROR ==> !Reliable()
      ensures r != IO_ERROR ==> Valid() && CopyOutcome(r, old(tree), tree, s, d)
    {
      ghost var t := tree;
      r := EnsureDirectory(parent, Parent(d));
      if r == OK {
        RenderSpells(d);
        ReadyAfter(t, s, d);
        r := CopyInto(src, dst, s, d);
        if r != IO_ERROR {
          CopyFinished(r, t, tree, s, d);
        }
      } else if r != IO_ERROR {
        Unprepared(r, t, tree, s, d);
      }
    }

    /** filesystem_copy */
    method Copy(source: string, destination: string) returns (r: FsResult)
      requires Valid() && IsText(source) && IsText(destination)
      modifies nodes, Media(), this`tree
      ensures r == IO_ERROR ==> !Reliable()
      ensures r != IO_ERROR ==> Valid() && CopyServed(r, old(tree), tree, here, source, destination)
    {
      ghost var t, c := tree, here;
      var refused, src, dst, parent := CheckNames(source, destination, false);
      if refused.Some? {
        RefusedNames(tree, c, source, destination);
        return refused.value;
      }
      r := CopyChecked(src, dst, parent, Meaning(c, source), Meaning(c, destination));
      if r != IO_ERROR {
        CopyNamed(r, t, tree, c, source, destination);
      }
    }

    // ----------------------------------------------------------------
    // Removing
    // ----------------------------------------------------------------

    /** The clearing loop: slots below i no longer hold anything under p. */
    method ClearUnder(path: string, ghost p: Path) returns (ok: bool)
      requires Consistent() && Spells(path, p)
      modifies nodes, Media()
      ensures Shape() && (Reliable() ==> ok)
      ensures ok ==> Agrees() && View() == Cleared(old(View()), p)
    {
      ghost var v := View();
      ok := true;
      for i := 0 to MAX_NODES
        invariant ok && Agrees()
        invariant forall j :: 0 <= j < MAX_NODES ==> View()[j] == if j < i && Under(v[j], p) then Free else v[j]
      {
        NodeFacts(i, path, p);
        if nodes[i].used && IsInside(path, nodes[i].path) {
          ok := ClearSlot(i);
          if !ok {
            return;
          }
        }
      }
      assert View() == Cleared(v, p);
    }

    /** Does any other node lie under p? */
    method HasChildren(path: string, index: nat, ghost p: Path) returns (found: bool)
      requires Consistent() && Spells(path, p) && At(View(), index, p)
      ensures found <==> HasBelow(tree, p)
    {
      ghost var v := View();
      for i := 0 to MAX_NODES
        invariant forall j :: 0 <= j < i && j != index ==> !Under(v[j], p)
      {
        NodeFacts(i, path, p);
        if nodes[i].used && i != index && IsInside(path, nodes[i].path) {
          TreeAt(v, i);
          assert !Same(v, i, index);
          return true;
        }
      }
      found := false;
      forall q | q in tree && p <= q
        ensures q == p
      {
        var j := SlotOf(v, q);
      }
    }

    /** The refusals of filesystem_remove on a resolved path; the slot of the node otherwise. */
    method CheckRemove(path: string, recursive: bool, ghost p: Path) returns (r: FsResult, index: nat)
      requires Valid() && Spells(path, p)
      ensures r == RemoveAnswer(tree, p, here, recursive)
      ensures r == OK ==> At(View(), index, p)
    {
      index := 0;
      RenderNotRoot(p);
      if path == "/" { return BUSY, 0; }
      var found := FindNode(path, p);
      if found < 0 { return NOT_FOUND, 0; }
      InsideIsPrefix(p, here);
      if IsInside(path, cwd) { return BUSY, 0; }
      if nodes[found].dir {
        var hasChildren := HasChildren(path, found, p);
        if hasChildren && !recursive { return DIRECTORY_NOT_EMPTY, 0; }
      } else {
        FileHasNothingBelow(tree, p);
      }
      r, index := OK, found;
    }

    /** The same from the name as given. */
    method CheckRemoveName(name: string, recursive: bool) returns (r: FsResult, path: string, index: nat)
      requires Valid() && IsText(name)
      ensures r == RemoveReply(tree, here, name, recursive)
      ensures r == OK ==> Spells(path, Meaning(here, name)) && At(View(), index, Meaning(here, name))
    {
      ghost var c := here;
      var resolved := Resolve(cwd, name, PATH_MAX, c);
      if resolved.None? { return INVALID_PATH, "", 0; }
      path := resolved.value;
      r, index := CheckRemove(path, recursive, Meaning(c, name));
    }

    /** The single slot of a file, or every slot under a directory, is cleared. */
    method ClearNodes(path: string, index: nat, ghost p: Path) returns (ok: bool)
      requires Consistent() && WellFormed(tree) && Spells(path, p) && At(View(), index, p)
      modifies nodes, Media(), this`tree
      ensures Shape() && (Reliable() ==> ok)
      ensures ok ==> Consistent() && tree == RemoveTree(old(tree), p)
    {
      ghost var v := View();
      ClearedTree(v, p);
      if nodes[index].dir {
        ok := ClearUnder(path, p);
      } else {
        NodeFacts(index, path, p);
        TreeAt(v, index);
        FileHasNothingBelow(tree, p);
        OnlyOneUnder(v, index, p);
        ok := ClearSlot(index);
      }
      if ok {
        Denote();
      }
    }

    /** filesystem_remove */
    method Remove(path: string, recursive: bool) returns (r: FsResult)
      requires Valid() && IsText(path)
      modifies nodes, Media(), this`tree
      ensures r == IO_ERROR ==> !Reliable()
      ensures r != IO_ERROR ==> Valid() && RemoveServed(r, old(tree), tree, here, path, recursive)
    {
      ghost var c := here;
      var resolved, index;
      r, resolved, index := CheckRemoveName(path, recursive);
      if r != OK {
        RemoveRefused(tree, c, path, recursive);
        return;
      }
      RemoveKeeps(tree, c, path, recursive);
      var ok := ClearNodes(resolved, index, Meaning(c, path));
      if !ok {
        return IO_ERROR;
      }
      Sound();
    }

    // ----------------------------------------------------------------
    // Creating and visiting
    // ----------------------------------------------------------------

    /** filesystem_change_directory */
    method ChangeDirectory(path: string) returns (ok: bool)
      requires Valid() && IsText(path)
      modifies this`cwd, this`here
      ensures Valid()
      ensures VisitOutcome(ok, tree, old(here), here, path)
    {
      ghost var c := here;
      ghost var p := Meaning(c, path);
      var resolved := Resolve(cwd, path, PATH_MAX, c);
      if resolved.None? { return false; }
      var index := FindNode(resolved.value, p);
      if index < 0 || !nodes[index].dir { return false; }
      Enter(resolved.value, p);
      ok := true;
    }

    /** The refusals of create_directory and create_file that come before anything is created. */
    method CheckName(name: string, file: bool) returns (refused: Option<FsResult>, path: string)
      requires Valid() && IsText(name)
      ensures refused == NameRefused(tree, here, name, file)
      ensures refused.None? ==> Spells(path, Meaning(here, name)) && |path| < PATH_MAX
    {
      ghost var c := here;
      ghost var p := Meaning(c, name);
      if name == [] { return Some(INVALID_PATH), ""; }
      var resolved := Resolve(cwd, name, PATH_MAX, c);
      if resolved.None? { return Some(INVALID_PATH), ""; }
      path := resolved.value;
      RenderNotRoot(p);
      if file && path == "/" { return Some(INVALID_PATH), ""; }
      var index := FindNode(path, p);
      refused := if index >= 0 then Some(ALREADY_EXISTS) else None;
    }

    /** filesystem_create_directory */
    method CreateDirectory(path: string) returns (r: FsResult)
      requires Valid() && IsText(path)
      modifies nodes, Media(), this`tree
      ensures r == IO_ERROR ==> !Reliable()
      ensures r != IO_ERROR ==> Valid() && MakeDirServed(r, old(tree), tree, here, path)
    {
      ghost var c := here;
      var refused, resolved := CheckName(path, false);
      if refused.Some? {
        RefusedName(tree, c, path);
        return refused.value;
      }
      r := EnsureDirectory(resolved, Meaning(c, path));
    }

    method AddFile(path: string, ghost p: Path) returns (r: FsResult)
      requires Valid() && Spells(path, p) && |path| < PATH_MAX
      requires p != [] && p !in tree && IsDir(tree, Parent(p))
      modifies nodes, Media(), this`tree
      ensures r == IO_ERROR ==> !Reliable()
      ensures r != IO_ERROR ==> Valid() && FileAdded(r, old(tree), tree, p)
    {
      RenderSpells(p);
      AddKeeps(tree, p, Entry(false, []), here);
      Bounded();
      r := AddEntry(path, false, p);
      if r == OK {
        Sound();
      }
    }

    /** filesystem_create_file, in a directory that is created if missing. */
    method CreateInParent(path: string, parent: string, ghost p: Path) returns (r: FsResult)
      requires Valid() && Spells(path, p) && |path| < PATH_MAX && p != [] && p !in tree
      requires Spells(parent, Parent(p)) && |parent| < |path|
      modifies nodes, Media(), this`tree
      ensures r == IO_ERROR ==> !Reliable()
      ensures r != IO_ERROR ==> Valid() && MakeFileOutcome(r, old(tree), tree, p)
    {
      ghost var t := tree;
      r := EnsureDirectory(parent, Parent(p));
      if r == OK {
        RenderSpells(p);
        FileReady(t, p);
        r := AddFile(path, p);
        if r != IO_ERROR {
          FileFinished(r, t, tree, p);
        }
      } else if r != IO_ERROR {
        NoParent(r, t, tree, p);
      }
    }

    /** filesystem_create_file */
    method CreateFile(path: string) returns (r: FsResult)
      requires Valid() && IsText(path)
      modifies nodes, Media(), this`tree
      ensures r == IO_ERROR ==> !Reliable()
      ensures r != IO_ERROR ==> Valid() && MakeFileServed(r, old(tree), tree, here, path)
    {
      ghost var c := here;
      var refused, resolved := CheckName(path, true);
      if refused.Some? {
        RefusedName(tree, c, path);
        return refused.value;
      }
      var hasParent, parent := GetParentPath(resolved, Meaning(c, path));
      r := CreateInParent(resolved, parent, Meaning(c, path));
    }

    // ----------------------------------------------------------------
    // File contents
    // ----------------------------------------------------------------

    /** The lookup shared by read, write and append: a resolved name that is a file. */
    method FindFile(path: string) returns (r: FsResult, index: nat)
      requires Valid() && IsText(path)
      ensures r == FileAnswer(tree, here, path)
      ensures r == OK ==> IsFile(index, Meaning(here, path))
    {
      ghost var p := Meaning(here, path);
      index := 0;
      var resolved := Resolve(cwd, path, PATH_MAX, here);
      if resolved.None? { return INVALID_PATH, 0; }
      var found := FindNode(resolved.value, p);
      if found < 0 { return NOT_FOUND, 0; }
      if nodes[found].dir { return NOT_FILE, 0; }
      TreeAt(View(), found);
      DirHasNoData(found);
      r, index := OK, found;
    }

    /** Slot index holds the file p. */
    ghost predicate IsFile(index: nat, p: Path)
      requires Consistent()
      reads this`persistent, this`tree, nodes, volume, volume.sectors
    {
      && At(View(), index, p) && !View()[index].dir && p in tree
      && tree[p] == Entry(false, View()[index].data) && |View()[index].data| == nodes[index].size
    }

    /** filesystem_read_file into a buffer of `size` bytes */
    method ReadFile(path: string, size: nat) returns (r: FsResult, data: seq<byte>)
      requires Valid() && IsText(path)
      ensures r == IO_ERROR ==> !Reliable()
      ensures r != IO_ERROR ==> ReadOutcome(r, data, tree, here, path, size)
    {
      data := [];
      if size == 0 { return INVALID_PATH, []; }
      var index;
      r, index := FindFile(path);
      if r != OK { return; }
      if nodes[index].size + 1 > size { return NO_SPACE, []; }
      var ok;
      ok, data := BackendRead(index, size - 1);
      if !ok { return IO_ERROR, []; }
      r := OK;
    }

    /** The tail of write and append: store the bytes of a file that was found. */
    method StoreFile(index: nat, data: seq<byte>, ghost p: Path) returns (r: FsResult)
      requires Valid() && IsFile(index, p) && |data| <= FILE_MAX
      modifies nodes, Media(), this`tree
      ensures r == IO_ERROR ==> !Reliable()
      ensures r != IO_ERROR ==> Valid() && BytesStored(r, old(tree), tree, p, data, Reliable())
    {
      SetSlotData(View(), index, data);
      SetDataKeeps(tree, p, data, here);
      var ok := BackendWrite(index, data);
      if ok {
        Denote();
        Sound();
        return OK;
      }
      r := if persistent then IO_ERROR else NO_SPACE;
    }

    /** filesystem_write_file */
    method WriteFile(path: string, data: seq<byte>) returns (r: FsResult)
      requires Valid() && IsText(path)
      modifies nodes, Media(), this`tree
      ensures r == IO_ERROR ==> !Reliable()
      ensures r != IO_ERROR ==> Valid() && StoreOutcome(r, old(tree), tree, here, path, data, |data|, Reliable())
    {
      ghost var t, c := tree, here;
      StoreRefused(t, c, path, data, |data|, Reliable());
      if |data| > FILE_MAX { return FILE_TOO_LARGE; }
      var index;
      r, index := FindFile(path);
      if r != OK { return; }
      r := StoreFile(index, data, Meaning(c, path));
      if r != IO_ERROR {
        StoreFinished(r, t, tree, c, path, data, |data|, Reliable());
      }
    }

    /** filesystem_append_file; the sum of the sizes is taken without wrap-around. */
    method AppendFile(path: string, data: seq<byte>) returns (r: FsResult)
      requires Valid() && IsText(path)
      modifies nodes, Media(), this`tree
      ensures r == IO_ERROR ==> !Reliable()
      ensures r != IO_ERROR ==> Valid() && AppendOutcome(r, old(tree), tree, here, path, data, Reliable())
    {
      ghost var t, c := tree, here;
      AppendRefused(t, c, path, data, Reliable());
      var index;
      r, index := FindFile(path);
      if r != OK { return; }
      if nodes[index].size + |data| > FILE_MAX { return FILE_TOO_LARGE; }
      var ok, bytes := BackendRead(index, FILE_MAX);
      if !ok { return IO_ERROR; }
      r := StoreFile(index, bytes + data, Meaning(c, path));
      if r != IO_ERROR {
        AppendFinished(r, t, tree, c, path, data, Reliable());
      }
    }
  }

  /**
    Remounting: a filesystem that has been running on a volume is started again from the
    sectors alone. On healthy storage the volume is used again exactly when there is a slot
    for every base node that has gone missing; the tree then is the old one plus those
    nodes. Otherwise the new tree is the bare base tree in RAM, and the volume keeps the old.
   */
  method Remount(fs: Fs, memory: bool) returns (again: Fs)
    requires fs.Valid() && fs.persistent
    modifies fs.volume.sectors
    ensures again.volume == fs.volume && again.Consistent()
    ensures again.tree == BaseAdded(if again.persistent then old(fs.tree) else map[])
    ensures !again.persistent || old(BaseSafe(fs.tree)) ==> again.Valid()
    ensures fs.volume.healthy ==> (again.persistent <==> |old(fs.tree)| + Missing(old(fs.tree)) <= MAX_NODES)
    ensures fs.volume.healthy && !again.persistent ==> again.StillStored(old(fs.tree))
    ensures fs.volume.healthy && Missing(old(fs.tree)) == 0 ==> again.persistent && again.tree == old(fs.tree)
  {
    AgreeingVolumeOk(fs.nodes[..], fs.Store());
    fs.Bounded();
    ghost var t := fs.tree;
    if Missing(t) == 0 {
      NoneMissing(t);
    }
    again := new Fs(fs.volume, memory);
  }
}
