/**
  What the calls of source/fs/filesystem.c answer and leave behind, as functions of the
  tree they start from. The table has MAX_NODES slots, so a tree has room for
  MAX_NODES - |t| more nodes.
 */
module FsOutcomes {
  import opened Basics
  import opened Paths
  import opened PathResolver
  import opened FsTree
  import opened FsTable
  import opened DiskFormat

  datatype FsResult =
    | OK | NOT_FOUND | ALREADY_EXISTS | NOT_DIRECTORY | DIRECTORY_NOT_EMPTY | INVALID_PATH
    | NO_SPACE | BUSY | NOT_FILE | FILE_TOO_LARGE | IO_ERROR

  // ----------------------------------------------------------------
  // Directories on the way
  // ----------------------------------------------------------------

  /** The missing directories of p fit into the free slots. */
  ghost predicate DirsFit(t: Tree, p: Path) {
    |t| + MissingDirs(t, p) <= MAX_NODES
  }

  /** The directories on the way to p have been created until the table was full. */
  ghost predicate FilledToward(t: Tree, t': Tree, p: Path) {
    exists q :: q <= p && t' == WithDirs(t, q) && NoFileOnWay(t, q) && |t'| == MAX_NODES
  }

  /** ensure_directory_absolute */
  ghost function DirsAnswer(t: Tree, p: Path): FsResult {
    if !NoFileOnWay(t, p) then NOT_DIRECTORY else if !DirsFit(t, p) then NO_SPACE else OK
  }

  ghost predicate DirsMade(r: FsResult, t: Tree, t': Tree, p: Path) {
    && r == DirsAnswer(t, p)
    && (if r == OK then t' == WithDirs(t, p) else if r == NO_SPACE then FilledToward(t, t', p) else t' == t)
  }

  /** A refused creation of ancestors: where the next missing directory q finds no slot. */
  lemma NoSlotLeft(t: Tree, p: Path, q: Path)
    requires WellFormed(t) && q <= p && q != [] && NoFileOnWay(t, Parent(q)) && q !in t
    requires |WithDirs(t, Parent(q))| == MAX_NODES
    ensures DirsMade(NO_SPACE, t, WithDirs(t, Parent(q)), p)
  {
    MissingMeansNoFile(t, p, q);
    DirsSize(t, Parent(q));
    DirsGrow(t, p, q);
    PrefixOfParent(Parent(q), q);
    assert Parent(q) <= p;
  }

  /** A file on the way: everything before it exists, so nothing has been created. */
  lemma FileInTheWay(t: Tree, p: Path, q: Path)
    requires WellFormed(t) && q <= p && q != [] && q in t && !t[q].dir
    ensures DirsMade(NOT_DIRECTORY, t, WithDirs(t, Parent(q)), p)
  {
    assert IsDir(t, Parent(q));
    NothingToCreate(t, Parent(q));
    if NoFileOnWay(t, p) {
      NoFileDown(t, p, q);
    }
  }

  lemma AllMade(t: Tree, p: Path)
    requires IsDir(t, []) && NoFileOnWay(t, p) && |WithDirs(t, p)| <= MAX_NODES
    ensures DirsMade(OK, t, WithDirs(t, p), p)
  {
    DirsSize(t, p);
  }

  /** Created directories keep the tree well formed and every directory a directory. */
  lemma DirsMadeKeeps(r: FsResult, t: Tree, t': Tree, p: Path, c: Path)
    requires WellFormed(t) && Storable(p) && DirsMade(r, t, t', p) && IsDir(t, c)
    ensures WellFormed(t') && IsDir(t', c)
  {
    if r == OK {
      DirsKeepInvariant(t, p);
      WithDirsMeaning(t, p, c);
    } else if r == NO_SPACE {
      var q :| q <= p && t' == WithDirs(t, q) && NoFileOnWay(t, q) && |t'| == MAX_NODES;
      PrefixFits(q, p);
      DirsKeepInvariant(t, q);
      WithDirsMeaning(t, q, c);
    }
  }

  // ----------------------------------------------------------------
  // Move and copy
  // ----------------------------------------------------------------

  /** The refusals of filesystem_move (root = true) and filesystem_copy before anything is created. */
  ghost function Refusal(t: Tree, s: Path, d: Path, root: bool): Option<FsResult> {
    if s !in t then Some(NOT_FOUND)
    else if root && s == [] then Some(BUSY)
    else if d in t then Some(ALREADY_EXISTS)
    else if t[s].dir && s <= d then Some(INVALID_PATH)
    else None
  }

  /** The effect of a successful move: missing ancestors of d, then the subtree rebased. */
  ghost predicate MoveDone(t: Tree, t': Tree, s: Path, d: Path) {
    d != [] && var u := WithDirs(t, Parent(d)); Movable(u, s, d) && IsMove(u, t', s, d)
  }

  /** The effect of a successful copy: missing ancestors of d, then a twin for every node under s. */
  ghost predicate CopyMade(t: Tree, t': Tree, s: Path, d: Path) {
    d != [] && var u := WithDirs(t, Parent(d)); Movable(u, s, d) && IsCopy(u, t', s, d)
  }

  ghost function MoveAnswer(t: Tree, s: Path, d: Path): FsResult {
    match Refusal(t, s, d, true)
    case Some(r) => r
    case None =>
      if d == [] then INVALID_PATH
      else if DirsAnswer(t, Parent(d)) != OK then DirsAnswer(t, Parent(d))
      else if !AllFitAt(t, s, d) then INVALID_PATH
      else OK
  }

  /** Both names may be moved, the destination directory can be made. */
  ghost predicate Prepared(t: Tree, s: Path, d: Path, root: bool) {
    Refusal(t, s, d, root).None? && d != [] && DirsAnswer(t, Parent(d)) == OK
  }

  /** filesystem_move on resolved names: the answer, and the tree that answer leaves. */
  ghost predicate MoveOutcome(r: FsResult, t: Tree, t': Tree, s: Path, d: Path) {
    && r == MoveAnswer(t, s, d)
    && (if r == OK then MoveDone(t, t', s, d)
        else if r == NO_SPACE then d != [] && FilledToward(t, t', Parent(d))
        else if Prepared(t, s, d, true) then t' == WithDirs(t, Parent(d))
        else t' == t)
  }

  /** The copy needs a slot for every missing ancestor of d and for every node under s. */
  ghost predicate CopyFits(t: Tree, s: Path, d: Path)
    requires d != []
  {
    |t| + MissingDirs(t, Parent(d)) + |Below(t, s)| <= MAX_NODES
  }

  ghost function CopyAnswer(t: Tree, s: Path, d: Path): FsResult {
    match Refusal(t, s, d, false)
    case Some(r) => r
    case None =>
      if d == [] then INVALID_PATH
      else if DirsAnswer(t, Parent(d)) != OK then DirsAnswer(t, Parent(d))
      else if !CopyFits(t, s, d) then NO_SPACE
      else if !AllFitAt(t, s, d) then INVALID_PATH
      else OK
  }

  /** filesystem_copy on resolved names: the answer, and the tree that answer leaves. */
  ghost predicate CopyOutcome(r: FsResult, t: Tree, t': Tree, s: Path, d: Path) {
    && r == CopyAnswer(t, s, d)
    && (if r == OK then CopyMade(t, t', s, d)
        else if Prepared(t, s, d, false) then t' == WithDirs(t, Parent(d))
        else if r == NO_SPACE then d != [] && FilledToward(t, t', Parent(d))
        else t' == t)
  }

  /** The refusals before anything is created, from the names as the caller gave them. */
  ghost function NamesRefused(t: Tree, c: Path, source: string, destination: string, root: bool): Option<FsResult> {
    if Resolvable(c, source, PATH_MAX) && Resolvable(c, destination, PATH_MAX)
    then Refusal(t, Meaning(c, source), Meaning(c, destination), root) else Some(INVALID_PATH)
  }

  /** filesystem_move on names read in the directory c. */
  ghost predicate MoveServed(r: FsResult, t: Tree, t': Tree, c: Path, source: string, destination: string) {
    if Resolvable(c, source, PATH_MAX) && Resolvable(c, destination, PATH_MAX)
    then MoveOutcome(r, t, t', Meaning(c, source), Meaning(c, destination)) else r == INVALID_PATH && t' == t
  }

  /** filesystem_copy on names read in the directory c. */
  ghost predicate CopyServed(r: FsResult, t: Tree, t': Tree, c: Path, source: string, destination: string) {
    if Resolvable(c, source, PATH_MAX) && Resolvable(c, destination, PATH_MAX)
    then CopyOutcome(r, t, t', Meaning(c, source), Meaning(c, destination)) else r == INVALID_PATH && t' == t
  }

  lemma RefusedNames(t: Tree, c: Path, source: string, destination: string)
    ensures var r := NamesRefused(t, c, source, destination, true);
            r.Some? ==> MoveServed(r.value, t, t, c, source, destination)
    ensures var r := NamesRefused(t, c, source, destination, false);
            r.Some? ==> CopyServed(r.value, t, t, c, source, destination)
  {
  }

  lemma MoveNamed(r: FsResult, t: Tree, t': Tree, c: Path, source: string, destination: string)
    requires NamesRefused(t, c, source, destination, true).None?
    requires MoveOutcome(r, t, t', Meaning(c, source), Meaning(c, destination))
    ensures MoveServed(r, t, t', c, source, destination)
  {
  }

  lemma CopyNamed(r: FsResult, t: Tree, t': Tree, c: Path, source: string, destination: string)
    requires NamesRefused(t, c, source, destination, false).None?
    requires CopyOutcome(r, t, t', Meaning(c, source), Meaning(c, destination))
    ensures CopyServed(r, t, t', c, source, destination)
  {
  }

  /** When the directory of d cannot be made. */
  lemma Unprepared(r: FsResult, t: Tree, t': Tree, s: Path, d: Path)
    requires d != [] && DirsMade(r, t, t', Parent(d)) && r != OK
    ensures Refusal(t, s, d, true).None? ==> MoveOutcome(r, t, t', s, d)
    ensures Refusal(t, s, d, false).None? ==> CopyOutcome(r, t, t', s, d)
  {
  }

  /** The second half of a move, from the tree u that has the destination directory. */
  ghost predicate MovedInto(r: FsResult, u: Tree, t': Tree, s: Path, d: Path) {
    if r == OK then Movable(u, s, d) && IsMove(u, t', s, d) else r == INVALID_PATH && !AllFitAt(u, s, d) && t' == u
  }

  ghost function RoomAnswer(u: Tree, s: Path, d: Path): FsResult {
    if |u| + |Below(u, s)| > MAX_NODES then NO_SPACE else if !AllFitAt(u, s, d) then INVALID_PATH else OK
  }

  /** The second half of a copy, from the tree u that has the destination directory. */
  ghost predicate CopiedInto(r: FsResult, u: Tree, t': Tree, s: Path, d: Path) {
    r == RoomAnswer(u, s, d) && if r == OK then Movable(u, s, d) && IsCopy(u, t', s, d) else t' == u
  }

  lemma MoveFinished(r: FsResult, t: Tree, t': Tree, s: Path, d: Path)
    requires WellFormed(t) && Storable(d) && Prepared(t, s, d, true)
    requires MovedInto(r, WithDirs(t, Parent(d)), t', s, d)
    ensures MoveOutcome(r, t, t', s, d)
  {
    ReadyAfter(t, s, d);
  }

  lemma CopyFinished(r: FsResult, t: Tree, t': Tree, s: Path, d: Path)
    requires WellFormed(t) && Storable(d) && Prepared(t, s, d, false)
    requires CopiedInto(r, WithDirs(t, Parent(d)), t', s, d)
    ensures CopyOutcome(r, t, t', s, d)
  {
    ReadyAfter(t, s, d);
    DirsSize(t, Parent(d));
  }

  // ----------------------------------------------------------------
  // Every answer, on the tree and the two paths
  // ----------------------------------------------------------------

  /** Nothing but directories stands at p and above it. */
  ghost predicate WayClear(t: Tree, p: Path) {
    forall q :: q <= p && q in t ==> t[q].dir
  }

  /** On a clear way to d, what is at or above d is a directory. */
  lemma SourceOnWay(t: Tree, s: Path, d: Path)
    requires WellFormed(t) && s in t && d !in t && s <= d
    ensures d != [] && (WayClear(t, Parent(d)) ==> t[s].dir)
  {
    PrefixOfParent(s, d);
  }

  /** filesystem_move succeeds exactly in this case. */
  lemma MoveOkIff(t: Tree, s: Path, d: Path)
    requires WellFormed(t) && Storable(d)
    ensures MoveAnswer(t, s, d) == OK <==>
            && s in t && s != [] && d !in t && !(s <= d)
            && (forall q :: q <= Parent(d) && q in t ==> t[q].dir)
            && DirsFit(t, Parent(d)) && AllFitAt(t, s, d)
  {
    if d !in t {
      NoFileMeans(t, Parent(d));
      if s in t && s <= d {
        SourceOnWay(t, s, d);
      }
    }
  }

  /** Every refusal of filesystem_move has exactly this cause. */
  lemma MoveRefusedIff(t: Tree, s: Path, d: Path)
    requires WellFormed(t) && Storable(d)
    ensures MoveAnswer(t, s, d) == NOT_FOUND <==> s !in t
    ensures MoveAnswer(t, s, d) == BUSY <==> s == []
    ensures MoveAnswer(t, s, d) == ALREADY_EXISTS <==> s in t && s != [] && d in t
    ensures MoveAnswer(t, s, d) == NOT_DIRECTORY <==>
            s in t && s != [] && d !in t && !(t[s].dir && s <= d) && !WayClear(t, Parent(d))
    ensures MoveAnswer(t, s, d) == NO_SPACE <==>
            s in t && s != [] && d !in t && !(s <= d) && WayClear(t, Parent(d)) && !DirsFit(t, Parent(d))
    ensures MoveAnswer(t, s, d) == INVALID_PATH <==>
            && s in t && s != [] && d !in t
            && ((t[s].dir && s <= d) || (WayClear(t, Parent(d)) && DirsFit(t, Parent(d)) && !AllFitAt(t, s, d)))
    ensures MoveAnswer(t, s, d) in {OK, NOT_FOUND, BUSY, ALREADY_EXISTS, NOT_DIRECTORY, NO_SPACE, INVALID_PATH}
  {
    if d !in t {
      NoFileMeans(t, Parent(d));
      if s in t && s <= d {
        SourceOnWay(t, s, d);
      }
    }
  }

  /** filesystem_copy succeeds exactly in this case. */
  lemma CopyOkIff(t: Tree, s: Path, d: Path)
    requires WellFormed(t) && Storable(d)
    ensures CopyAnswer(t, s, d) == OK <==>
            && s in t && d !in t && !(s <= d)
            && (forall q :: q <= Parent(d) && q in t ==> t[q].dir)
            && CopyFits(t, s, d) && AllFitAt(t, s, d)
  {
    if d !in t {
      NoFileMeans(t, Parent(d));
      if s in t && s <= d {
        SourceOnWay(t, s, d);
      }
    }
  }

  /** Every refusal of filesystem_copy has exactly this cause. */
  lemma CopyRefusedIff(t: Tree, s: Path, d: Path)
    requires WellFormed(t) && Storable(d)
    ensures CopyAnswer(t, s, d) == NOT_FOUND <==> s !in t
    ensures CopyAnswer(t, s, d) == ALREADY_EXISTS <==> s in t && d in t
    ensures CopyAnswer(t, s, d) == NOT_DIRECTORY <==>
            s in t && d !in t && !(t[s].dir && s <= d) && !WayClear(t, Parent(d))
    ensures CopyAnswer(t, s, d) == NO_SPACE <==>
            s in t && d !in t && !(s <= d) && WayClear(t, Parent(d)) && !CopyFits(t, s, d)
    ensures CopyAnswer(t, s, d) == INVALID_PATH <==>
            && s in t && d !in t
            && ((t[s].dir && s <= d) || (WayClear(t, Parent(d)) && CopyFits(t, s, d) && !AllFitAt(t, s, d)))
    ensures CopyAnswer(t, s, d) in {OK, NOT_FOUND, ALREADY_EXISTS, NOT_DIRECTORY, NO_SPACE, INVALID_PATH}
  {
    if d !in t {
      NoFileMeans(t, Parent(d));
      if s in t && s <= d {
        SourceOnWay(t, s, d);
      }
    }
  }

  /** t' is t with at most some missing directories on the way to p. */
  ghost predicate OnlyDirsToward(t: Tree, t': Tree, p: Path) {
    && (forall q {:trigger Stays(t, t', q)} :: q in t ==> Stays(t, t', q))
    && (forall q :: q in t' && q !in t ==> q <= p && t'[q] == Entry(true, []))
  }

  lemma DirsOnly(t: Tree, p: Path, q: Path)
    requires IsDir(t, []) && q <= p
    ensures OnlyDirsToward(t, WithDirs(t, q), p)
  {
    forall r
      ensures r in t ==> Stays(t, WithDirs(t, q), r)
      ensures r in WithDirs(t, q) && r !in t ==> r <= q && WithDirs(t, q)[r] == Entry(true, [])
    {
      WithDirsMeaning(t, q, r);
    }
  }

  lemma FilledOnly(t: Tree, t': Tree, p: Path)
    requires IsDir(t, []) && FilledToward(t, t', p)
    ensures OnlyDirsToward(t, t', p) && |t'| == MAX_NODES
  {
    var q :| q <= p && t' == WithDirs(t, q) && NoFileOnWay(t, q) && |t'| == MAX_NODES;
    DirsOnly(t, p, q);
  }

  /**
    A refused move or copy moves and copies nothing: only missing directories on the way to
    the destination may have been created, and none for the refusals decided before that.
   */
  lemma RefusedChangesNothing(r: FsResult, t: Tree, t': Tree, s: Path, d: Path)
    requires WellFormed(t) && Storable(d) && r != OK
    requires MoveOutcome(r, t, t', s, d) || CopyOutcome(r, t, t', s, d)
    ensures r in {NOT_FOUND, BUSY, ALREADY_EXISTS, NOT_DIRECTORY} ==> t' == t
    ensures s in t && t[s].dir && s <= d ==> t' == t
    ensures t' != t ==> d != [] && OnlyDirsToward(t, t', Parent(d))
  {
    if t' != t {
      if t' == WithDirs(t, Parent(d)) {
        DirsOnly(t, Parent(d), Parent(d));
      } else {
        FilledOnly(t, t', Parent(d));
      }
    }
  }

  /** The current directory follows a successful move. */
  ghost predicate Followed(r: FsResult, c: Path, c': Path, s: Path, d: Path) {
    c' == if r == OK then Moved(c, s, d) else c
  }

  /** A finished move keeps the tree, and takes the current directory along. */
  lemma MoveKeeps(u: Tree, t': Tree, s: Path, d: Path, c: Path)
    requires Movable(u, s, d) && IsMove(u, t', s, d) && IsDir(u, c)
    ensures WellFormed(t') && IsDir(t', Moved(c, s, d))
  {
    MoveKeepsInvariant(u, t', s, d);
  }

  lemma CopyKeeps(u: Tree, t': Tree, s: Path, d: Path, c: Path)
    requires Movable(u, s, d) && IsCopy(u, t', s, d) && IsDir(u, c)
    ensures WellFormed(t') && IsDir(t', c)
  {
    CopyKeepsInvariant(u, t', s, d);
    assert Stays(u, t', c);
  }

  /** Creating the ancestors of d changes nothing under s. */
  lemma SameBelow(t: Tree, s: Path, d: Path)
    requires IsDir(t, []) && d != [] && !(s <= d)
    ensures AllFitAt(WithDirs(t, Parent(d)), s, d) <==> AllFitAt(t, s, d)
    ensures Below(WithDirs(t, Parent(d)), s) == Below(t, s)
  {
    forall q | s <= q
      ensures q in WithDirs(t, Parent(d)) <==> q in t
    {
      GrowthOutside(t, s, d, q);
    }
  }

  /** The destination can receive the subtree: its parent exists and it is apart from the source. */
  ghost predicate Ready(t: Tree, s: Path, d: Path) {
    s in t && s != [] && d !in t && d != [] && IsPath(d) && !(s <= d) && IsDir(t, Parent(d))
  }

  lemma ReadyAfter(t: Tree, s: Path, d: Path)
    requires WellFormed(t) && Storable(d) && d != [] && NoFileOnWay(t, Parent(d))
    requires Refusal(t, s, d, false).None?
    ensures Ready(WithDirs(t, Parent(d)), s, d)
    ensures AllFitAt(WithDirs(t, Parent(d)), s, d) <==> AllFitAt(t, s, d)
    ensures Below(WithDirs(t, Parent(d)), s) == Below(t, s)
  {
    assert t[[]].dir && [] <= d;
    ReadyToMove(t, s, d);
    SameBelow(t, s, d);
  }

  // ----------------------------------------------------------------
  // Creating
  // ----------------------------------------------------------------

  /** filesystem_create_directory on a resolved name. */
  ghost predicate MakeDirOutcome(r: FsResult, t: Tree, t': Tree, p: Path) {
    if p in t then r == ALREADY_EXISTS && t' == t else DirsMade(r, t, t', p)
  }

  ghost function MakeFileAnswer(t: Tree, p: Path): FsResult {
    if p == [] then INVALID_PATH
    else if p in t then ALREADY_EXISTS
    else if !NoFileOnWay(t, Parent(p)) then NOT_DIRECTORY
    else if |t| + MissingDirs(t, Parent(p)) + 1 > MAX_NODES then NO_SPACE
    else OK
  }

  /** filesystem_create_file on a resolved name. */
  ghost predicate MakeFileOutcome(r: FsResult, t: Tree, t': Tree, p: Path) {
    && r == MakeFileAnswer(t, p)
    && (if r == OK then t' == WithDirs(t, Parent(p))[p := Entry(false, [])]
        else if r == NO_SPACE then p != [] && FilledToward(t, t', Parent(p))
        else t' == t)
  }

  /** filesystem_create_directory and filesystem_create_file on a name read in the directory c. */
  ghost predicate MakeDirServed(r: FsResult, t: Tree, t': Tree, c: Path, path: string) {
    if path != [] && Resolvable(c, path, PATH_MAX) then MakeDirOutcome(r, t, t', Meaning(c, path))
    else r == INVALID_PATH && t' == t
  }

  ghost predicate MakeFileServed(r: FsResult, t: Tree, t': Tree, c: Path, path: string) {
    if path != [] && Resolvable(c, path, PATH_MAX) then MakeFileOutcome(r, t, t', Meaning(c, path))
    else r == INVALID_PATH && t' == t
  }

  /** The refusals before anything is created. */
  ghost function NameRefused(t: Tree, c: Path, path: string, file: bool): Option<FsResult> {
    if path == [] || !Resolvable(c, path, PATH_MAX) then Some(INVALID_PATH)
    else if file && Meaning(c, path) == [] then Some(INVALID_PATH)
    else if Meaning(c, path) in t then Some(ALREADY_EXISTS)
    else None
  }

  lemma RefusedName(t: Tree, c: Path, path: string)
    ensures var r := NameRefused(t, c, path, false); r.Some? ==> MakeDirServed(r.value, t, t, c, path)
    ensures var r := NameRefused(t, c, path, true); r.Some? ==> MakeFileServed(r.value, t, t, c, path)
  {
  }

  /** filesystem_create_file succeeds, and is refused, exactly in these cases. */
  lemma MakeFileIff(t: Tree, p: Path)
    requires WellFormed(t)
    ensures MakeFileAnswer(t, p) == OK <==>
            && p !in t && (forall q :: q <= Parent(p) && q in t ==> t[q].dir)
            && |WithDirs(t, Parent(p))| < MAX_NODES
    ensures MakeFileAnswer(t, p) == INVALID_PATH <==> p == []
    ensures MakeFileAnswer(t, p) == ALREADY_EXISTS <==> p in t && p != []
    ensures MakeFileAnswer(t, p) == NOT_DIRECTORY <==> p !in t && !WayClear(t, Parent(p))
    ensures MakeFileAnswer(t, p) == NO_SPACE <==>
            p !in t && WayClear(t, Parent(p)) && |WithDirs(t, Parent(p))| >= MAX_NODES
  {
    if p !in t {
      NoFileMeans(t, Parent(p));
      DirsSize(t, Parent(p));
    }
  }

  /** filesystem_create_directory succeeds, and is refused, exactly in these cases. */
  lemma MakeDirIff(r: FsResult, t: Tree, t': Tree, p: Path)
    requires WellFormed(t) && MakeDirOutcome(r, t, t', p)
    ensures r == OK <==> p !in t && WayClear(t, p) && |WithDirs(t, p)| <= MAX_NODES
    ensures r == ALREADY_EXISTS <==> p in t
    ensures r == NOT_DIRECTORY <==> p !in t && !WayClear(t, p)
    ensures r == NO_SPACE <==> p !in t && WayClear(t, p) && |WithDirs(t, p)| > MAX_NODES
    ensures r == OK ==> IsDir(t', p) && OnlyDirsToward(t, t', p)
    ensures r != OK && t' != t ==> r == NO_SPACE && |t'| == MAX_NODES && OnlyDirsToward(t, t', p)
  {
    NoFileMeans(t, p);
    DirsSize(t, p);
    if r == OK {
      DirsOnly(t, p, p);
      WithDirsMeaning(t, p, p);
    } else if r == NO_SPACE {
      FilledOnly(t, t', p);
    }
  }

  lemma AddKeeps(t: Tree, p: Path, e: Entry, c: Path)
    requires WellFormed(t) && p !in t && p != [] && Storable(p) && IsDir(t, Parent(p)) && IsDir(t, c)
    ensures WellFormed(t[p := e]) && IsDir(t[p := e], c)
  {
    AddKeepsInvariant(t, p, e);
  }

  /** The last step of filesystem_create_file, in the tree u that has the parent directory. */
  ghost predicate FileAdded(r: FsResult, u: Tree, t': Tree, p: Path) {
    if r == OK then |u| < MAX_NODES && t' == u[p := Entry(false, [])]
    else r == NO_SPACE && |u| == MAX_NODES && t' == u
  }

  /** When the parent directory cannot be made. */
  lemma NoParent(r: FsResult, t: Tree, t': Tree, p: Path)
    requires p != [] && p !in t && DirsMade(r, t, t', Parent(p)) && r != OK
    ensures MakeFileOutcome(r, t, t', p)
  {
  }

  lemma FileFinished(r: FsResult, t: Tree, t': Tree, p: Path)
    requires WellFormed(t) && Storable(p) && p != [] && p !in t && NoFileOnWay(t, Parent(p))
    requires FileAdded(r, WithDirs(t, Parent(p)), t', p)
    ensures MakeFileOutcome(r, t, t', p)
  {
    FileReady(t, p);
  }

  // ----------------------------------------------------------------
  // Removing
  // ----------------------------------------------------------------

  ghost predicate HasBelow(t: Tree, p: Path) {
    exists q :: q in t && p <= q && q != p
  }

  ghost function RemoveAnswer(t: Tree, p: Path, cwd: Path, recursive: bool): FsResult {
    if p == [] then BUSY
    else if p !in t then NOT_FOUND
    else if p <= cwd then BUSY
    else if !recursive && HasBelow(t, p) then DIRECTORY_NOT_EMPTY
    else OK
  }

  /** filesystem_remove on a resolved name. */
  ghost predicate RemoveOutcome(r: FsResult, t: Tree, t': Tree, p: Path, cwd: Path, recursive: bool) {
    r == RemoveAnswer(t, p, cwd, recursive) && t' == if r == OK then RemoveTree(t, p) else t
  }

  /** filesystem_remove on a name read in the current directory. */
  ghost predicate RemoveServed(r: FsResult, t: Tree, t': Tree, c: Path, path: string, recursive: bool) {
    if Resolvable(c, path, PATH_MAX) then RemoveOutcome(r, t, t', Meaning(c, path), c, recursive)
    else r == INVALID_PATH && t' == t
  }

  ghost function RemoveReply(t: Tree, c: Path, path: string, recursive: bool): FsResult {
    if Resolvable(c, path, PATH_MAX) then RemoveAnswer(t, Meaning(c, path), c, recursive) else INVALID_PATH
  }

  lemma RemoveRefused(t: Tree, c: Path, path: string, recursive: bool)
    ensures var r := RemoveReply(t, c, path, recursive); r != OK ==> RemoveServed(r, t, t, c, path, recursive)
  {
  }

  /** What is removed is neither "/" nor the current directory or above it. */
  lemma RemoveKeeps(t: Tree, c: Path, path: string, recursive: bool)
    requires WellFormed(t) && IsDir(t, c) && RemoveReply(t, c, path, recursive) == OK
    ensures var t' := RemoveTree(t, Meaning(c, path));
            WellFormed(t') && IsDir(t', c) && RemoveServed(OK, t, t', c, path, recursive)
  {
    RemoveKeepsInvariant(t, Meaning(c, path));
  }

  /**
    filesystem_remove: a directory that holds something goes only when the call is recursive,
    nothing goes that the current directory lies in, and everything else that exists does.
   */
  lemma RemoveIff(t: Tree, p: Path, cwd: Path, recursive: bool)
    requires WellFormed(t) && IsDir(t, cwd)
    ensures RemoveAnswer(t, p, cwd, recursive) == OK <==>
            p in t && !(p <= cwd) && (recursive || RemoveTree(t, p) == t - {p})
    ensures RemoveAnswer(t, p, cwd, recursive) == BUSY <==> p <= cwd
    ensures RemoveAnswer(t, p, cwd, recursive) == NOT_FOUND <==> p !in t
    ensures RemoveAnswer(t, p, cwd, recursive) == DIRECTORY_NOT_EMPTY <==>
            p in t && !(p <= cwd) && !recursive && exists q :: q in t && q != [] && q != p && Parent(q) == p
    ensures RemoveAnswer(t, p, cwd, recursive) in {OK, BUSY, NOT_FOUND, DIRECTORY_NOT_EMPTY}
  {
    if p <= cwd && p != cwd {
      Ancestors(t, cwd, p);
    }
    HasChild(t, p);
    if HasBelow(t, p) {
      var q :| q in t && p <= q && q != p;
      assert q in t - {p} && q !in RemoveTree(t, p);
    }
  }

  /** A path with something below it has a child. */
  lemma HasChild(t: Tree, p: Path)
    requires WellFormed(t)
    ensures HasBelow(t, p) <==> exists q :: q in t && q != [] && q != p && Parent(q) == p
  {
    if HasBelow(t, p) {
      var q :| q in t && p <= q && q != p;
      var child := q[..|p| + 1];
      if child != q {
        Ancestors(t, q, child);
      }
      assert child in t && child != [] && child != p && Parent(child) == p;
    }
    forall q | q in t && q != [] && q != p && Parent(q) == p
      ensures HasBelow(t, p)
    {
      PrefixOfParent(p, q);
    }
  }

  lemma FileHasNothingBelow(t: Tree, p: Path)
    requires WellFormed(t) && p in t && !t[p].dir
    ensures !HasBelow(t, p)
  {
    forall q | q in t && p <= q && q != p
      ensures false
    {
      Ancestors(t, q, p);
    }
  }

  // ----------------------------------------------------------------
  // Files
  // ----------------------------------------------------------------

  /** The lookup shared by read, write and append. */
  ghost function FileAnswer(t: Tree, cwd: Path, path: string): FsResult {
    if !Resolvable(cwd, path, PATH_MAX) then INVALID_PATH
    else if Meaning(cwd, path) !in t then NOT_FOUND
    else if t[Meaning(cwd, path)].dir then NOT_FILE
    else OK
  }

  /** When a name leads to a file, and why not. */
  lemma LookupIff(t: Tree, cwd: Path, path: string)
    requires WellFormed(t)
    ensures var p := Meaning(cwd, path);
            && (FileAnswer(t, cwd, path) == INVALID_PATH <==> !Resolvable(cwd, path, 512))
            && (FileAnswer(t, cwd, path) == NOT_FOUND <==> Resolvable(cwd, path, 512) && p !in t)
            && (FileAnswer(t, cwd, path) == NOT_FILE <==> Resolvable(cwd, path, 512) && IsDir(t, p))
            && (FileAnswer(t, cwd, path) == OK <==> Resolvable(cwd, path, 512) && p in t && !t[p].dir)
  {
  }

  /** The name of any node opens it from every directory: no existing file is out of reach. */
  lemma EveryFileFound(t: Tree, cwd: Path, p: Path)
    requires WellFormed(t) && p in t
    ensures FileAnswer(t, cwd, Render(p)) == if t[p].dir then NOT_FILE else OK
  {
    assert Storable(p);
    AbsoluteResolves(cwd, p, PATH_MAX);
  }

  /** filesystem_read_file into a buffer of `size` bytes, unless the storage fails. */
  ghost predicate ReadOutcome(r: FsResult, data: seq<byte>, t: Tree, cwd: Path, path: string, size: nat) {
    if size == 0 then r == INVALID_PATH
    else if FileAnswer(t, cwd, path) != OK then r == FileAnswer(t, cwd, path)
    else if |t[Meaning(cwd, path)].data| >= size then r == NO_SPACE
    else r == OK && data == t[Meaning(cwd, path)].data
  }

  /** filesystem_change_directory: ok exactly when the name is a directory, which becomes current. */
  ghost predicate VisitOutcome(ok: bool, t: Tree, c: Path, c': Path, path: string) {
    && ok == (Resolvable(c, path, PATH_MAX) && IsDir(t, Meaning(c, path)))
    && c' == if ok then Meaning(c, path) else c
  }

  /** filesystem_write_file; with reliable storage a file that is there is written. */
  ghost predicate StoreOutcome(r: FsResult, t: Tree, t': Tree, cwd: Path, path: string, data: seq<byte>, size: nat, reliable: bool) {
    if size > FILE_MAX then r == FILE_TOO_LARGE && t' == t
    else if FileAnswer(t, cwd, path) != OK then r == FileAnswer(t, cwd, path) && t' == t
    else if r == NO_SPACE then !reliable && t' == t
    else r == OK && t' == t[Meaning(cwd, path) := Entry(false, data)]
  }

  ghost function StoreReply(t: Tree, cwd: Path, path: string, size: nat): FsResult {
    if size > FILE_MAX then FILE_TOO_LARGE else FileAnswer(t, cwd, path)
  }

  lemma StoreRefused(t: Tree, cwd: Path, path: string, data: seq<byte>, size: nat, reliable: bool)
    ensures var r := StoreReply(t, cwd, path, size); r != OK ==> StoreOutcome(r, t, t, cwd, path, data, size, reliable)
  {
  }

  /** The bytes of p are stored, or no memory is left and nothing changes. */
  ghost predicate BytesStored(r: FsResult, t: Tree, t': Tree, p: Path, data: seq<byte>, reliable: bool) {
    if r == OK then t' == t[p := Entry(false, data)] else r == NO_SPACE && !reliable && t' == t
  }

  lemma StoreFinished(r: FsResult, t: Tree, t': Tree, cwd: Path, path: string, data: seq<byte>, size: nat, reliable: bool)
    requires StoreReply(t, cwd, path, size) == OK && BytesStored(r, t, t', Meaning(cwd, path), data, reliable)
    ensures StoreOutcome(r, t, t', cwd, path, data, size, reliable)
  {
  }

  lemma SetDataKeeps(t: Tree, p: Path, data: seq<byte>, c: Path)
    requires WellFormed(t) && p in t && !t[p].dir && IsDir(t, c)
    ensures WellFormed(t[p := Entry(false, data)]) && IsDir(t[p := Entry(false, data)], c)
  {
    SetDataKeepsInvariant(t, p, data);
  }

  /** filesystem_append_file; the lookup comes before the size check. */
  ghost predicate AppendOutcome(r: FsResult, t: Tree, t': Tree, cwd: Path, path: string, data: seq<byte>, reliable: bool) {
    if FileAnswer(t, cwd, path) != OK then r == FileAnswer(t, cwd, path) && t' == t
    else var whole := t[Meaning(cwd, path)].data + data;
         StoreOutcome(r, t, t', cwd, path, whole, |whole|, reliable)
  }

  lemma AppendRefused(t: Tree, cwd: Path, path: string, data: seq<byte>, reliable: bool)
    ensures var r := FileAnswer(t, cwd, path);
            r != OK ==> AppendOutcome(r, t, t, cwd, path, data, reliable)
    ensures FileAnswer(t, cwd, path) == OK && |t[Meaning(cwd, path)].data + data| > FILE_MAX ==>
              AppendOutcome(FILE_TOO_LARGE, t, t, cwd, path, data, reliable)
  {
  }

  lemma AppendFinished(r: FsResult, t: Tree, t': Tree, cwd: Path, path: string, data: seq<byte>, reliable: bool)
    requires FileAnswer(t, cwd, path) == OK && |t[Meaning(cwd, path)].data + data| <= FILE_MAX
    requires BytesStored(r, t, t', Meaning(cwd, path), t[Meaning(cwd, path)].data + data, reliable)
    ensures AppendOutcome(r, t, t', cwd, path, data, reliable)
  {
  }

  /** A new file once its directory has been made. */
  lemma FileReady(t: Tree, p: Path)
    requires WellFormed(t) && Storable(p) && p != [] && p !in t && NoFileOnWay(t, Parent(p))
    ensures p !in WithDirs(t, Parent(p)) && IsDir(WithDirs(t, Parent(p)), Parent(p))
    ensures |WithDirs(t, Parent(p))| == |t| + MissingDirs(t, Parent(p))
    ensures |WithDirs(t, Parent(p))| == MAX_NODES ==> FilledToward(t, WithDirs(t, Parent(p)), Parent(p))
  {
    PrefixFits(Parent(p), p);
    DirsKeepInvariant(t, Parent(p));
    WithDirsMeaning(t, Parent(p), p);
    DirsSize(t, Parent(p));
  }
}
