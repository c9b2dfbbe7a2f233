/**
  Whole runs of the filesystem: any sequence of calls on any names. `Step` is the
  filesystem as a machine on trees; the table, the cache and the disk implement it.
 */
module FsRuns {
  import opened Basics
  import opened Paths
  import opened PathResolver
  import opened FsTree
  import opened FsTable
  import opened FsOutcomes
  import opened RootFsDisk
  import opened FsCache
  import opened BaseTree
  import opened FileSystem

  datatype Request =
    | ChangeTo(path: string)
    | MakeDirectory(path: string)
    | MakeFile(path: string)
    | Write(path: string, data: seq<byte>)
    | Append(path: string, data: seq<byte>)
    | Read(path: string, size: nat)
    | RemoveAt(path: string, recursive: bool)
    | CopyTo(source: string, destination: string)
    | MoveTo(source: string, destination: string)

  datatype Reply = Reply(r: FsResult, bytes: seq<byte>)

  /** What the calls are about: the tree and the current directory. */
  datatype World = World(tree: Tree, here: Path)

  predicate IsTextual(q: Request) {
    match q
    case CopyTo(source, destination) => IsText(source) && IsText(destination)
    case MoveTo(source, destination) => IsText(source) && IsText(destination)
    case _ => IsText(q.path)
  }

  /** One call that meets no I/O error: its reply, and the world it leaves. */
  ghost predicate Step(q: Request, a: Reply, w: World, w': World, reliable: bool) {
    var r, t, t', c := a.r, w.tree, w'.tree, w.here;
    match q
    case ChangeTo(path) => t' == t && r in {OK, NOT_FOUND} && VisitOutcome(r == OK, t, c, w'.here, path)
    case MoveTo(source, destination) =>
      && MoveServed(r, t, t', c, source, destination)
      && Followed(r, c, w'.here, Meaning(c, source), Meaning(c, destination))
    case CopyTo(source, destination) => w'.here == c && CopyServed(r, t, t', c, source, destination)
    case MakeDirectory(path) => w'.here == c && MakeDirServed(r, t, t', c, path)
    case MakeFile(path) => w'.here == c && MakeFileServed(r, t, t', c, path)
    case Write(path, data) => w'.here == c && StoreOutcome(r, t, t', c, path, data, |data|, reliable)
    case Append(path, data) => w'.here == c && AppendOutcome(r, t, t', c, path, data, reliable)
    case Read(path, size) => w' == w && ReadOutcome(r, a.bytes, t, c, path, size)
    case RemoveAt(path, recursive) => w'.here == c && RemoveServed(r, t, t', c, path, recursive)
  }

  /** One call. */
  method Serve(fs: Fs, q: Request) returns (a: Reply)
    requires fs.Valid() && IsTextual(q)
    modifies fs`cwd, fs`here, fs`tree, fs.nodes, fs.Media()
    ensures a.r == IO_ERROR ==> !fs.Reliable()
    ensures a.r != IO_ERROR ==> fs.Valid() && Step(q, a, old(World(fs.tree, fs.here)), World(fs.tree, fs.here), fs.Reliable())
  {
    var r, bytes := OK, [];
    match q {
      case ChangeTo(path) =>
        var ok := fs.ChangeDirectory(path);
        r := if ok then OK else NOT_FOUND;
      case Read(path, size) => r, bytes := fs.ReadFile(path, size);
      case MoveTo(source, destination) => r := fs.Move(source, destination);
      case _ => r := Edit(fs, q);
    }
    a := Reply(r, bytes);
  }

  /** The calls that change the tree and leave the current directory alone. */
  method Edit(fs: Fs, q: Request) returns (r: FsResult)
    requires fs.Valid() && IsTextual(q) && !q.ChangeTo? && !q.Read? && !q.MoveTo?
    modifies fs`tree, fs.nodes, fs.Media()
    ensures r == IO_ERROR ==> !fs.Reliable()
    ensures r != IO_ERROR ==> fs.Valid() && Step(q, Reply(r, []), old(World(fs.tree, fs.here)), World(fs.tree, fs.here), fs.Reliable())
  {
    match q
    case MakeDirectory(path) => r := fs.CreateDirectory(path);
    case MakeFile(path) => r := fs.CreateFile(path);
    case Write(path, data) => r := fs.WriteFile(path, data);
    case Append(path, data) => r := fs.AppendFile(path, data);
    case RemoveAt(path, recursive) => r := fs.Remove(path, recursive);
    case CopyTo(source, destination) => r := fs.Copy(source, destination);
  }

  /** The replies are those of the tree machine, which goes through the given worlds. */
  ghost predicate Follows(qs: seq<Request>, answers: seq<Reply>, worlds: seq<World>, reliable: bool) {
    && |answers| <= |qs| && |worlds| == |answers| + 1
    && forall i :: 0 <= i < |answers| ==> StepAt(qs, answers, worlds, reliable, i)
  }

  ghost predicate StepAt(qs: seq<Request>, answers: seq<Reply>, worlds: seq<World>, reliable: bool, i: nat)
    requires i < |answers| <= |qs| && |worlds| == |answers| + 1
  {
    Step(qs[i], answers[i], worlds[i], worlds[i + 1], reliable)
  }

  /**
    A run up to its first I/O error answers as the tree machine does and keeps the
    invariant throughout: unique canonical paths, "/" and every parent a directory, the
    current directory alive. On a volume the slots then decode to exactly the table in
    memory. With reliable storage no run meets an I/O error.
   */
  method Run(fs: Fs, requests: seq<Request>) returns (stopped: bool, answers: seq<Reply>, ghost worlds: seq<World>)
    requires fs.Valid() && forall i :: 0 <= i < |requests| ==> IsTextual(requests[i])
    modifies fs`cwd, fs`here, fs`tree, fs.nodes, fs.Media()
    ensures Follows(requests, answers, worlds, fs.Reliable()) && worlds[0] == old(World(fs.tree, fs.here))
    ensures !stopped ==> |answers| == |requests| && worlds[|requests|] == World(fs.tree, fs.here) && fs.Valid()
    ensures !stopped && fs.persistent ==> fs.View() == DiskView(fs.volume.Img(), fs.volume.area)
    ensures fs.Reliable() ==> !stopped
  {
    stopped, answers, worlds := ServeAll(fs, requests);
    if !stopped && fs.persistent {
      CacheIsDisk(fs.nodes[..], fs.Store());
    }
  }

  method ServeAll(fs: Fs, requests: seq<Request>) returns (stopped: bool, answers: seq<Reply>, ghost worlds: seq<World>)
    requires fs.Valid() && forall i :: 0 <= i < |requests| ==> IsTextual(requests[i])
    modifies fs`cwd, fs`here, fs`tree, fs.nodes, fs.Media()
    ensures Follows(requests, answers, worlds, fs.Reliable()) && worlds[0] == old(World(fs.tree, fs.here))
    ensures !stopped ==> |answers| == |requests| && worlds[|requests|] == World(fs.tree, fs.here) && fs.Valid()
    ensures fs.Reliable() ==> !stopped
  {
    answers, worlds := [], [World(fs.tree, fs.here)];
    for i := 0 to |requests|
      invariant fs.Valid() && |answers| == i && Follows(requests, answers, worlds, fs.Reliable())
      invariant worlds[0] == old(World(fs.tree, fs.here)) && worlds[i] == World(fs.tree, fs.here)
    {
      var a := Serve(fs, requests[i]);
      if a.r == IO_ERROR {
        stopped := true;
        return;
      }
      FollowsOn(requests, answers, worlds, fs.Reliable(), a, World(fs.tree, fs.here));
      answers, worlds := answers + [a], worlds + [World(fs.tree, fs.here)];
    }
    stopped := false;
  }

  lemma FollowsOn(qs: seq<Request>, answers: seq<Reply>, worlds: seq<World>, reliable: bool, a: Reply, w: World)
    requires Follows(qs, answers, worlds, reliable) && |answers| < |qs|
    requires Step(qs[|answers|], a, worlds[|answers|], w, reliable)
    ensures Follows(qs, answers + [a], worlds + [w], reliable)
  {
    var answers', worlds' := answers + [a], worlds + [w];
    forall i | 0 <= i < |answers'|
      ensures StepAt(qs, answers', worlds', reliable, i)
    {
      if i < |answers| {
        assert StepAt(qs, answers, worlds, reliable, i);
      }
    }
  }

  // ----------------------------------------------------------------
  // Restarts
  // ----------------------------------------------------------------

  /** Whether every base directory that holds base entries still is one. */
  method CheckBase(fs: Fs) returns (safe: bool)
    requires fs.Consistent()
    ensures safe <==> BaseSafe(fs.tree)
  {
    ghost var t := fs.tree;
    for i := 1 to BASE_COUNT
      invariant SafeBelow(t, i)
    {
      safe := CheckParent(fs, i, t);
      if !safe {
        Unsafe(t, i);
        return;
      }
      SafeStep(t, i);
    }
    SafeAll(t);
    safe := true;
  }

  ghost predicate SafeBelow(t: Tree, n: nat)
    requires n <= BASE_COUNT
  {
    forall j :: 0 < j < n ==> ParentSafe(t, j)
  }

  lemma SafeStep(t: Tree, n: nat)
    requires n < BASE_COUNT && SafeBelow(t, n) && ParentSafe(t, n)
    ensures SafeBelow(t, n + 1)
  {
  }

  lemma SafeAll(t: Tree)
    requires SafeBelow(t, BASE_COUNT)
    ensures BaseSafe(t)
  {
  }

  lemma Unsafe(t: Tree, i: nat)
    requires 0 < i < BASE_COUNT && !ParentSafe(t, i)
    ensures !BaseSafe(t)
  {
  }

  method CheckParent(fs: Fs, i: nat, ghost t: Tree) returns (safe: bool)
    requires fs.Consistent() && t == fs.tree && 0 < i < BASE_COUNT
    ensures safe == ParentSafe(t, i)
  {
    BaseEntries(i);
    var path := BasePath(BaseAt(i).parent);
    BasePathOk(BaseAt(i).parent);
    RenderSpells(path);
    var index := fs.FindNode(Render(path), path);
    safe := index < 0 || fs.nodes[index].dir;
  }

  /**
    One start and the calls up to the next: t is the tree on the volume before, t' after. With a slot for
    every base node t lacks the calls work on t and those nodes; otherwise on the base tree
    in RAM, and the volume keeps t, possibly with some base nodes more.
   */
  ghost predicate Boot(t: Tree, t': Tree, qs: seq<Request>, answers: seq<Reply>, worlds: seq<World>) {
    && Follows(qs, answers, worlds, true) && |answers| == |qs|
    && if |t| + Missing(t) <= MAX_NODES
       then worlds[0].tree == BaseAdded(t) && t' == worlds[|qs|].tree
       else worlds[0].tree == BaseAdded(map[]) && PartlyCompleted(t, t')
  }

  /** The volume can be mounted, holds t, and t has its base directories. */
  ghost predicate Mountable(volume: Volume, t: Tree)
    reads volume, volume.sectors
  {
    && volume.Valid() && volume.volumeReady && volume.healthy
    && VolumeOk(volume.Img(), volume.area) && HeldTree(volume) == t && BaseSafe(t)
  }

  /** One start on healthy storage; safe tells whether the volume can be started from again. */
  method StartAndServe(volume: Volume, qs: seq<Request>, ghost t: Tree)
    returns (safe: bool, ghost t': Tree, ghost answers: seq<Reply>, ghost worlds: seq<World>)
    requires Mountable(volume, t) && forall i :: 0 <= i < |qs| ==> IsTextual(qs[i])
    modifies volume.sectors
    ensures Boot(t, t', qs, answers, worlds)
    ensures safe <==> BaseSafe(t')
    ensures safe ==> Mountable(volume, t')
  {
    var fs := new Fs(volume, true);
    if fs.persistent {
      safe, answers, worlds := ServeOnVolume(fs, qs, t);
      t' := fs.tree;
    } else {
      t' := FellBack(fs, t);
      answers, worlds := ServeInRam(fs, qs, t, t');
      safe := true;
    }
  }

  /** What a volume holds that a start had no room on. */
  lemma FellBack(fs: Fs, t: Tree) returns (t': Tree)
    requires fs.StillStored(t) && fs.volume.volumeReady && fs.volume.healthy
    requires (t == map[] || WellFormed(t)) && BaseSafe(t)
    ensures Mountable(fs.volume, t') && PartlyCompleted(t, t')
  {
    t' := HeldTree(fs.volume);
    PartlyWellFormed(t, t');
  }

  lemma BootedOnVolume(t: Tree, t': Tree, qs: seq<Request>, answers: seq<Reply>, worlds: seq<World>)
    requires Follows(qs, answers, worlds, true) && |answers| == |qs| && |t| + Missing(t) <= MAX_NODES
    requires worlds[0].tree == BaseAdded(t) && t' == worlds[|qs|].tree
    ensures Boot(t, t', qs, answers, worlds)
  {
  }

  lemma BootedInRam(t: Tree, t': Tree, qs: seq<Request>, answers: seq<Reply>, worlds: seq<World>)
    requires Follows(qs, answers, worlds, true) && |answers| == |qs| && |t| + Missing(t) > MAX_NODES
    requires worlds[0].tree == BaseAdded(map[]) && PartlyCompleted(t, t')
    ensures Boot(t, t', qs, answers, worlds)
  {
  }

  /** The calls after a start on the volume. */
  method ServeOnVolume(fs: Fs, qs: seq<Request>, ghost t: Tree)
    returns (safe: bool, ghost answers: seq<Reply>, ghost worlds: seq<World>)
    requires fs.Valid() && fs.persistent && fs.volume.healthy && forall i :: 0 <= i < |qs| ==> IsTextual(qs[i])
    requires |t| + Missing(t) <= MAX_NODES && fs.tree == BaseAdded(t)
    modifies fs`cwd, fs`here, fs`tree, fs.nodes, fs.Media()
    ensures Boot(t, fs.tree, qs, answers, worlds)
    ensures safe <==> BaseSafe(fs.tree)
    ensures safe ==> Mountable(fs.volume, fs.tree)
  {
    var stopped, replies;
    stopped, replies, worlds := ServeAll(fs, qs);
    answers := replies;
    BootedOnVolume(t, fs.tree, qs, answers, worlds);
    AgreeingVolumeOk(fs.nodes[..], fs.Store());
    safe := CheckBase(fs);
  }

  /** The calls after a start that the volume had no room for. */
  method ServeInRam(fs: Fs, qs: seq<Request>, ghost t: Tree, ghost t': Tree)
    returns (ghost answers: seq<Reply>, ghost worlds: seq<World>)
    requires fs.Valid() && !fs.persistent && fs.memory && forall i :: 0 <= i < |qs| ==> IsTextual(qs[i])
    requires |t| + Missing(t) > MAX_NODES && fs.tree == BaseAdded(map[]) && PartlyCompleted(t, t') && Mountable(fs.volume, t')
    modifies fs`cwd, fs`here, fs`tree, fs.nodes
    ensures Boot(t, t', qs, answers, worlds) && Mountable(fs.volume, t')
  {
    var stopped, replies;
    stopped, replies, worlds := ServeAll(fs, qs);
    answers := replies;
    BootedInRam(t, t', qs, answers, worlds);
  }

  /** The first n starts. */
  ghost predicate Chain(sessions: seq<seq<Request>>, n: nat, trees: seq<Tree>, answers: seq<seq<Reply>>, worlds: seq<seq<World>>) {
    && n <= |sessions| && |trees| == n + 1 && |answers| == n && |worlds| == n
    && forall i :: 0 <= i < n ==> BootAt(sessions, trees, answers, worlds, i)
  }

  ghost predicate BootAt(sessions: seq<seq<Request>>, trees: seq<Tree>, answers: seq<seq<Reply>>, worlds: seq<seq<World>>, i: nat)
    requires i < |answers| == |worlds| <= |sessions| && |trees| == |answers| + 1
  {
    Boot(trees[i], trees[i + 1], sessions[i], answers[i], worlds[i])
  }

  lemma ChainOn(sessions: seq<seq<Request>>, n: nat, trees: seq<Tree>, answers: seq<seq<Reply>>, worlds: seq<seq<World>>,
                t': Tree, a: seq<Reply>, w: seq<World>)
    requires Chain(sessions, n, trees, answers, worlds) && n < |sessions| && Boot(trees[n], t', sessions[n], a, w)
    ensures Chain(sessions, n + 1, trees + [t'], answers + [a], worlds + [w])
  {
    var trees', answers', worlds' := trees + [t'], answers + [a], worlds + [w];
    forall i | 0 <= i < n + 1
      ensures BootAt(sessions, trees', answers', worlds', i)
    {
      if i < n {
        assert BootAt(sessions, trees, answers, worlds, i);
      }
    }
  }

  /**
    Any number of starts on a healthy volume, each followed by any calls, up to the first
    that leaves a file in place of a base directory. Every start works as Boot says on what
    the one before it left on the volume.
   */
  method Restarts(volume: Volume, sessions: seq<seq<Request>>)
    returns (n: nat, ghost trees: seq<Tree>, ghost answers: seq<seq<Reply>>, ghost worlds: seq<seq<World>>)
    requires volume.Valid() && volume.volumeReady && volume.healthy && VolumeOk(volume.Img(), volume.area)
    requires BaseSafe(HeldTree(volume))
    requires forall i :: 0 <= i < |sessions| ==> forall j :: 0 <= j < |sessions[i]| ==> IsTextual(sessions[i][j])
    modifies volume.sectors
    ensures Chain(sessions, n, trees, answers, worlds) && trees[0] == old(HeldTree(volume))
    ensures n < |sessions| ==> !BaseSafe(trees[n])
    ensures BaseSafe(trees[n]) ==> Mountable(volume, trees[n])
  {
    n, trees, answers, worlds := 0, [HeldTree(volume)], [], [];
    var safe := true;
    while n < |sessions| && safe
      invariant Chain(sessions, n, trees, answers, worlds) && trees[0] == old(HeldTree(volume))
      invariant safe <==> BaseSafe(trees[n])
      invariant safe ==> Mountable(volume, trees[n])
    {
      ghost var t', a, w;
      safe, t', a, w := StartAndServe(volume, sessions[n], trees[n]);
      ChainOn(sessions, n, trees, answers, worlds, t', a, w);
      n, trees, answers, worlds := n + 1, trees + [t'], answers + [a], worlds + [w];
    }
  }
}
