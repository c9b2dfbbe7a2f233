/**
  The initial RootOS tree: the table initial_nodes of source/fs/filesystem.c and what
  create_initial_tree makes of an existing tree. Each entry is given by the index of its
  parent, its depth and its own name; entry 0 is "/".
 */
module BaseTree {
  import opened Paths
  import opened FsTree
  import opened FsTable

  datatype Base = Base(parent: nat, depth: nat, name: string, dir: bool)

  /** initial_nodes */
  function BaseAt(i: nat): Base {
    match i
    case 0 => Base(0, 0, "", true)
    case 1 => Base(0, 1, "boot", true)
    case 2 => Base(1, 2, "kernel.elf", false)
    case 3 => Base(0, 1, "home", true)
    case 4 => Base(3, 2, "user", true)
    case 5 => Base(4, 3, "Documents", true)
    case 6 => Base(4, 3, "Downloads", true)
    case 7 => Base(4, 3, "Projects", true)
    case 8 => Base(4, 3, "bin", true)
    case 9 => Base(4, 3, "readme.txt", false)
    case 10 => Base(0, 1, "system", true)
    case 11 => Base(10, 2, "bin", true)
    case 12 => Base(11, 3, "shell", false)
    case 13 => Base(10, 2, "drivers", true)
    case 14 => Base(10, 2, "fonts", true)
    case 15 => Base(14, 3, "unifont-17.0.05.otf", false)
    case 16 => Base(10, 2, "libraries", true)
    case 17 => Base(10, 2, "services", true)
    case 18 => Base(10, 2, "apps", true)
    case 19 => Base(10, 2, "version.txt", false)
    case 20 => Base(0, 1, "config", true)
    case 21 => Base(20, 2, "users", true)
    case 22 => Base(20, 2, "shell", true)
    case 23 => Base(20, 2, "system", true)
    case 24 => Base(20, 2, "services", true)
    case 25 => Base(0, 1, "packages", true)
    case 26 => Base(0, 1, "temp", true)
    case 27 => Base(0, 1, "var", true)
    case 28 => Base(27, 2, "log", true)
    case 29 => Base(28, 3, "kernel.log", false)
    case 30 => Base(27, 2, "cache", true)
    case 31 => Base(30, 3, "packages", true)
    case _ => Base(27, 2, "run", true)
  }

  const BASE_COUNT := 33

  /** Parents come first and are directories; nothing is deeper than three. */
  lemma BasePlaced(i: nat)
    requires i < BASE_COUNT
    ensures BaseAt(i).depth <= 3
    ensures 0 < i ==> BaseAt(i).parent < i && BaseAt(BaseAt(i).parent).dir
                      && BaseAt(i).depth == BaseAt(BaseAt(i).parent).depth + 1
  {
  }

  lemma BootNames()
    ensures IsName("boot") && IsName("kernel.elf") && IsName("bin") && IsName("readme.txt")
  {
  }

  lemma HomeNames()
    ensures IsName("home") && IsName("user") && IsName("Documents") && IsName("Downloads") && IsName("Projects")
  {
  }

  lemma SystemNames()
    ensures IsName("system") && IsName("shell") && IsName("drivers") && IsName("fonts") && IsName("libraries")
  {
  }

  lemma SystemFileNames()
    ensures IsName("unifont-17.0.05.otf") && IsName("services") && IsName("apps") && IsName("version.txt")
  {
  }

  lemma ConfigNames()
    ensures IsName("config") && IsName("users") && IsName("packages") && IsName("temp")
  {
  }

  lemma VarNames()
    ensures IsName("var") && IsName("log") && IsName("kernel.log") && IsName("cache") && IsName("run")
  {
  }

  lemma BaseNamed(i: nat)
    requires 0 < i < BASE_COUNT
    ensures IsName(BaseAt(i).name)
  {
    BootNames();
    HomeNames();
    SystemNames();
    SystemFileNames();
    ConfigNames();
    VarNames();
  }

  lemma BaseEntries(i: nat)
    requires i < BASE_COUNT
    ensures BaseAt(i).depth <= 3
    ensures 0 < i ==> BaseAt(i).parent < i && BaseAt(BaseAt(i).parent).dir
                      && BaseAt(i).depth == BaseAt(BaseAt(i).parent).depth + 1 && IsName(BaseAt(i).name)
  {
    BasePlaced(i);
    if 0 < i {
      BaseNamed(i);
    }
  }

  predicate IsBaseDir(i: nat)
    requires i < BASE_COUNT
  {
    BaseAt(i).dir
  }

  function BasePath(i: nat): Path
    requires i < BASE_COUNT
  {
    if i == 0 || BaseAt(i).parent >= i then [] else BasePath(BaseAt(i).parent) + [BaseAt(i).name]
  }

  lemma BasePathOk(i: nat)
    requires i < BASE_COUNT
    ensures Storable(BasePath(i))
    ensures i > 0 ==> BasePath(i) != [] && BaseAt(i).parent < i && Parent(BasePath(i)) == BasePath(BaseAt(i).parent)
  {
    BaseEntries(i);
    BaseNamesOnly(i);
    TailBound(BasePath(i));
  }

  lemma {:induction false} BaseNamesOnly(i: nat)
    requires i < BASE_COUNT
    ensures IsPath(BasePath(i)) && |BasePath(i)| <= BaseAt(i).depth
  {
    BaseEntries(i);
    if i > 0 {
      BaseNamesOnly(BaseAt(i).parent);
    }
  }

  lemma {:induction false} TailBound(p: Path)
    requires IsPath(p)
    ensures |Tail(p)| <= NAME_MAX * |p|
  {
    if p != [] {
      assert IsName(p[0]);
      TailBound(p[1..]);
    }
  }

  // ----------------------------------------------------------------
  // Completing a tree with a list of nodes
  // ----------------------------------------------------------------

  type NodeList = seq<(Path, bool)>

  function AddMissing(t: Tree, n: (Path, bool)): Tree {
    if n.0 in t then t else t[n.0 := Entry(n.1, [])]
  }

  /** After the list, in order: what is missing is added, nothing is changed. */
  ghost function Completed(t: Tree, ns: NodeList): Tree {
    if ns == [] then t else AddMissing(Completed(t, ns[..|ns| - 1]), ns[|ns| - 1])
  }

  /** Nothing that was there is touched. */
  lemma {:induction false} CompletedKeeps(t: Tree, ns: NodeList, q: Path)
    requires q in t
    ensures q in Completed(t, ns) && Completed(t, ns)[q] == t[q]
  {
    if ns != [] {
      CompletedKeeps(t, ns[..|ns| - 1], q);
    }
  }

  /** The list entry a new path comes from. */
  lemma {:induction false} CompletedOrigin(t: Tree, ns: NodeList, q: Path) returns (i: nat)
    requires q in Completed(t, ns) && q !in t
    ensures i < |ns| && q == ns[i].0 && Completed(t, ns)[q] == Entry(ns[i].1, [])
  {
    var n := |ns| - 1;
    if q in Completed(t, ns[..n]) {
      i := CompletedOrigin(t, ns[..n], q);
    } else {
      i := n;
    }
  }

  lemma {:induction false} CompletedHas(t: Tree, ns: NodeList, i: nat)
    requires i < |ns|
    ensures ns[i].0 in Completed(t, ns)
  {
    var n := |ns| - 1;
    if i < n {
      CompletedHas(t, ns[..n], i);
    }
  }

  lemma CompletedSnoc(t: Tree, ns: NodeList, i: nat)
    requires i < |ns|
    ensures Completed(t, ns[..i + 1]) == AddMissing(Completed(t, ns[..i]), ns[i])
  {
    assert ns[..i + 1][..i] == ns[..i];
  }

  /** Completing a tree that already has every node of the list changes nothing. */
  lemma {:induction false} NothingMissing(t: Tree, ns: NodeList)
    requires forall i :: 0 <= i < |ns| ==> ns[i].0 in t
    ensures Completed(t, ns) == t
  {
    if ns != [] {
      NothingMissing(t, ns[..|ns| - 1]);
    }
  }

  /** The paths of the list that the tree does not have. */
  ghost function Absent(t: Tree, ns: NodeList): set<Path> {
    set i | 0 <= i < |ns| && ns[i].0 !in t :: ns[i].0
  }

  lemma CompletedKeys(t: Tree, ns: NodeList)
    ensures Completed(t, ns).Keys == t.Keys + Absent(t, ns)
  {
    forall q | q in Completed(t, ns)
      ensures q in t.Keys + Absent(t, ns)
    {
      if q !in t {
        var i := CompletedOrigin(t, ns, q);
      }
    }
    forall q | q in t.Keys + Absent(t, ns)
      ensures q in Completed(t, ns)
    {
      if q in t {
        CompletedKeeps(t, ns, q);
      } else {
        var i :| 0 <= i < |ns| && ns[i].0 !in t && ns[i].0 == q;
        CompletedHas(t, ns, i);
      }
    }
  }

  /** Each absent path takes one slot. */
  lemma CompletedSize(t: Tree, ns: NodeList)
    ensures |Completed(t, ns)| == |t| + |Absent(t, ns)|
  {
    CompletedKeys(t, ns);
    assert |Completed(t, ns).Keys| == |t.Keys| + |Absent(t, ns)|;
  }

  lemma CompletedGrows(t: Tree, ns: NodeList, i: nat)
    requires i <= |ns|
    ensures |Completed(t, ns[..i])| <= |Completed(t, ns)|
  {
    CompletedSize(t, ns);
    CompletedSize(t, ns[..i]);
    assert Absent(t, ns[..i]) <= Absent(t, ns);
    Smaller(Absent(t, ns[..i]), Absent(t, ns));
  }

  lemma {:induction false} Smaller(a: set<Path>, b: set<Path>)
    requires a <= b
    ensures |a| <= |b|
  {
    if a != {} {
      var x :| x in a;
      Smaller(a - {x}, b - {x});
    }
  }

  lemma {:induction false} FewAbsent(t: Tree, ns: NodeList)
    ensures |Completed(t, ns)| <= |t| + |ns|
  {
    if ns != [] {
      FewAbsent(t, ns[..|ns| - 1]);
    }
  }

  /** initial_nodes, as paths */
  function BaseNodes(): (ns: NodeList)
    ensures |ns| == BASE_COUNT
    ensures forall i :: 0 <= i < BASE_COUNT ==> ns[i] == (BasePath(i), IsBaseDir(i))
  {
    seq(BASE_COUNT, i requires 0 <= i < BASE_COUNT => (BasePath(i), IsBaseDir(i)))
  }

  /** create_initial_tree on the tree t */
  ghost function BaseAdded(t: Tree): Tree {
    Completed(t, BaseNodes())
  }

  /** How many base nodes a tree lacks. */
  ghost function Missing(t: Tree): nat {
    |Absent(t, BaseNodes())|
  }

  lemma BaseSize(t: Tree)
    ensures |BaseAdded(t)| == |t| + Missing(t)
  {
    CompletedSize(t, BaseNodes());
  }

  /** Nothing missing: completing changes nothing. */
  lemma NoneMissing(t: Tree)
    requires Missing(t) == 0
    ensures BaseAdded(t) == t
  {
    var ns := BaseNodes();
    forall i | 0 <= i < |ns|
      ensures ns[i].0 in t
    {
      assert ns[i].0 !in Absent(t, ns);
    }
    NothingMissing(t, ns);
  }

  /** A tree that is full when base node i is found absent cannot be completed. */
  lemma CannotComplete(t: Tree, i: nat)
    requires i < BASE_COUNT && BasePath(i) !in Completed(t, BaseNodes()[..i])
    requires |Completed(t, BaseNodes()[..i])| >= MAX_NODES
    ensures |t| + Missing(t) > MAX_NODES
  {
    CompletedSnoc(t, BaseNodes(), i);
    CompletedGrows(t, BaseNodes(), i + 1);
    BaseSize(t);
  }

  /** Base files have long names, base directories short ones; "shell" is both, in different places. */
  predicate Telling(b: Base, i: nat) {
    && (!b.dir ==> |b.name| >= 10 || i == 12)
    && (b.dir ==> |b.name| <= 9 && (i == 22 || b.name != "shell"))
  }

  lemma ShellPlaces()
    ensures BaseAt(12) == Base(11, 3, "shell", false) && BaseAt(22).parent == 20 && BaseAt(20).parent == 0
    ensures BaseAt(11).parent == 10 && BaseAt(10).parent == 0
  {
  }

  lemma FileNames(i: nat)
    requires i < BASE_COUNT
    ensures Telling(BaseAt(i), i)
  {
    assert "shell" != "users" && "shell" != "fonts" && "shell" != "cache";
  }

  /** A base directory and a base file never have the same path. */
  lemma KindsDiffer(i: nat, j: nat)
    requires i < BASE_COUNT && j < BASE_COUNT && BaseAt(i).dir && !BaseAt(j).dir
    ensures BasePath(i) != BasePath(j)
  {
    BasePathOk(i);
    BasePathOk(j);
    FileNames(i);
    FileNames(j);
    ShellPlaces();
    assert i > 0 ==> BasePath(i)[|BasePath(i)| - 1] == BaseAt(i).name;
    assert BasePath(j)[|BasePath(j)| - 1] == BaseAt(j).name;
  }

  /** No base directory that holds base entries has been replaced by a file. */
  ghost predicate BaseSafe(t: Tree) {
    forall i :: 0 < i < BASE_COUNT ==> ParentSafe(t, i)
  }

  predicate ParentSafe(t: Tree, i: nat)
    requires i < BASE_COUNT
  {
    BaseAt(i).parent < BASE_COUNT && BasePath(BaseAt(i).parent) in t ==> t[BasePath(BaseAt(i).parent)].dir
  }

  /** Once the base nodes below n have been added, the parent of base node i is a directory. */
  lemma BaseParent(t: Tree, i: nat, n: nat)
    requires BaseSafe(t) && 0 < i < BASE_COUNT && i <= n <= BASE_COUNT
    ensures BaseAt(i).parent < i && IsDir(Completed(t, BaseNodes()[..n]), BasePath(BaseAt(i).parent))
  {
    BaseEntries(i);
    assert ParentSafe(t, i);
    var a, ns := BaseAt(i).parent, BaseNodes()[..n];
    CompletedHas(t, ns, a);
    BaseDirectory(t, a, n);
  }

  /** A base directory that was no file before is a directory if it is there after. */
  lemma BaseDirectory(t: Tree, a: nat, n: nat)
    requires a < BASE_COUNT && BaseAt(a).dir && (BasePath(a) in t ==> t[BasePath(a)].dir) && n <= BASE_COUNT
    requires BasePath(a) in Completed(t, BaseNodes()[..n])
    ensures Completed(t, BaseNodes()[..n])[BasePath(a)].dir
  {
    var ns := BaseNodes()[..n];
    if BasePath(a) in t {
      CompletedKeeps(t, ns, BasePath(a));
    } else {
      var j := CompletedOrigin(t, ns, BasePath(a));
      if !BaseAt(j).dir {
        KindsDiffer(a, j);
      }
    }
  }

  /** Every step of completing a safe tree, or an empty one, gives a well-formed tree. */
  lemma {:induction false} PrefixKeepsInvariant(t: Tree, n: nat)
    requires (WellFormed(t) || t == map[]) && BaseSafe(t) && n <= BASE_COUNT
    ensures var u := Completed(t, BaseNodes()[..n]); WellFormed(u) || (n == 0 && u == map[])
  {
    if n > 0 {
      var i := n - 1;
      var u := Completed(t, BaseNodes()[..i]);
      PrefixKeepsInvariant(t, i);
      CompletedSnoc(t, BaseNodes(), i);
      BasePathOk(i);
      if BasePath(i) !in u && i > 0 {
        BaseParent(t, i, i);
        AddKeepsInvariant(u, BasePath(i), Entry(IsBaseDir(i), []));
      } else if BasePath(i) !in u {
        RootAlone(u, i);
      }
    }
  }

  /** Base node 0 is "/", which only the empty tree lacks. */
  lemma RootAlone(u: Tree, i: nat)
    requires (WellFormed(u) || u == map[]) && i == 0 && BasePath(i) !in u
    ensures WellFormed(AddMissing(u, BaseNodes()[i]))
  {
    assert BasePath(0) == [] && IsBaseDir(0);
    BasePathOk(0);
  }

  /** Completing a safe tree, or an empty one, gives a well-formed tree. */
  lemma BaseKeepsInvariant(t: Tree)
    requires WellFormed(t) || t == map[]
    requires BaseSafe(t)
    ensures WellFormed(BaseAdded(t))
  {
    PrefixKeepsInvariant(t, BASE_COUNT);
    assert BaseNodes()[..BASE_COUNT] == BaseNodes();
  }

  /** A safe tree stays safe while it is completed. */
  lemma PrefixSafe(t: Tree, n: nat)
    requires BaseSafe(t) && n <= BASE_COUNT
    ensures BaseSafe(Completed(t, BaseNodes()[..n]))
  {
    var ns := BaseNodes()[..n];
    var u := Completed(t, ns);
    forall i | 0 < i < BASE_COUNT
      ensures ParentSafe(u, i)
    {
      BaseEntries(i);
      assert ParentSafe(t, i);
      if BasePath(BaseAt(i).parent) in u {
        BaseDirectory(t, BaseAt(i).parent, n);
      }
    }
  }

  /**
    create_initial_tree does not look at parents. It completes a well-formed tree to a
    well-formed tree exactly when no base directory holding base entries is a file.
   */
  lemma BaseInvariantIff(t: Tree)
    requires WellFormed(t) || t == map[]
    ensures WellFormed(BaseAdded(t)) <==> BaseSafe(t)
  {
    if BaseSafe(t) {
      BaseKeepsInvariant(t);
    } else {
      var i :| 0 < i < BASE_COUNT && !ParentSafe(t, i);
      BasePathOk(i);
      CompletedHas(t, BaseNodes(), i);
      CompletedKeeps(t, BaseNodes(), BasePath(BaseAt(i).parent));
      assert Parent(BasePath(i)) == BasePath(BaseAt(i).parent);
    }
  }

  /** The home directory is a base directory with entries. */
  lemma HomeIsBase(t: Tree)
    requires BaseSafe(t)
    ensures IsDir(BaseAdded(t), ["home", "user"])
  {
    HomeEntries();
    assert BasePath(3) == ["home"] && BasePath(4) == ["home", "user"];
    BaseParent(t, 5, BASE_COUNT);
    assert BaseNodes()[..BASE_COUNT] == BaseNodes();
  }

  lemma HomeEntries()
    ensures BaseAt(4) == Base(3, 2, "user", true) && BaseAt(3) == Base(0, 1, "home", true) && BaseAt(5).parent == 4
    ensures BasePath(0) == []
  {
  }

  lemma VarEntry()
    ensures BaseAt(28).parent == 27 && BaseAt(27) == Base(0, 1, "var", true) && BasePath(0) == []
  {
  }

  /** Replacing /var by a file is such a case: the next mount puts /var/log under a file. */
  lemma BaseCounterexample() returns (t: Tree)
    ensures WellFormed(t) && !WellFormed(BaseAdded(t))
  {
    t := map[[] := Entry(true, []), ["var"] := Entry(false, [])];
    VarEntry();
    BasePathOk(27);
    assert BasePath(27) == ["var"];
    assert Parent(["var"]) == [];
    assert Storable([]);
    assert t[BasePath(BaseAt(28).parent)] == Entry(false, []);
    assert !ParentSafe(t, 28);
    BaseInvariantIff(t);
  }

  // ----------------------------------------------------------------
  // A full volume that lacks a base node
  // ----------------------------------------------------------------

  /** A two-letter name. */
  function Letters(i: nat): string
    requires i < 256
  {
    [('a' as int + i / 16) as char, ('a' as int + i % 16) as char]
  }

  /** The base tree without /temp, and n empty files in "/". */
  ghost function Crowded(n: nat): Tree
    requires n <= 256
  {
    if n == 0 then RemoveTree(BaseAdded(map[]), ["temp"]) else Crowded(n - 1)[[Letters(n - 1)] := Entry(false, [])]
  }

  lemma {:induction false} CrowdedNames(n: nat, i: nat)
    requires n <= i < 256
    ensures [Letters(i)] !in Crowded(n) && ["temp"] !in Crowded(n)
  {
    if n > 0 {
      CrowdedNames(n - 1, i);
      assert Letters(i)[0] != Letters(n - 1)[0] || Letters(i)[1] != Letters(n - 1)[1];
      assert |Letters(n - 1)| == 2 && |"temp"| == 4;
      assert ["temp"][0] != [Letters(n - 1)][0] && [Letters(i)][0] != [Letters(n - 1)][0];
    } else if [Letters(i)] in BaseAdded(map[]) {
      var j := CompletedOrigin(map[], BaseNodes(), [Letters(i)]);
      ShortBaseName(j);
    }
  }

  /** No base node in "/" has a two-letter name. */
  lemma ShortBaseName(j: nat)
    requires j < BASE_COUNT && |BasePath(j)| == 1
    ensures |BasePath(j)[0]| != 2
  {
    BasePathOk(j);
    BaseEntries(j);
    assert BasePath(j)[0] == BaseAt(j).name;
    LongNames(j);
  }

  lemma LongNames(j: nat)
    requires 0 < j < BASE_COUNT
    ensures |BaseAt(j).name| != 2
  {
  }

  lemma LettersAreName(i: nat)
    requires i < 256
    ensures Storable([Letters(i)]) && Parent([Letters(i)]) == []
  {
    assert IsName(Letters(i));
    TailBound([Letters(i)]);
  }

  lemma {:induction false} CrowdedTree(n: nat)
    requires n <= 256
    ensures WellFormed(Crowded(n)) && ["temp"] !in Crowded(n) && |Crowded(n)| == |Crowded(0)| + n
  {
    if n == 0 {
      BaseKeepsInvariant(map[]);
      RemoveKeepsInvariant(BaseAdded(map[]), ["temp"]);
    } else {
      CrowdedTree(n - 1);
      CrowdedNames(n - 1, n - 1);
      LettersAreName(n - 1);
      AddKeepsInvariant(Crowded(n - 1), [Letters(n - 1)], Entry(false, []));
      assert |["temp"][0]| == 4 && |[Letters(n - 1)][0]| == 2;
    }
  }

  lemma CrowdedStart()
    ensures |Crowded(0)| <= BASE_COUNT
  {
    FewAbsent(map[], BaseNodes());
    assert Crowded(0).Keys <= BaseAdded(map[]).Keys;
    Smaller(Crowded(0).Keys, BaseAdded(map[]).Keys);
  }

  /**
    After removing /temp and creating files until the table is full, the tree is well formed
    and lacks a base node for which there is no slot.
   */
  lemma FullVolumeCounterexample() returns (t: Tree)
    ensures WellFormed(t) && |t| == MAX_NODES && ["temp"] !in t && |t| + Missing(t) > MAX_NODES
  {
    CrowdedStart();
    var n := MAX_NODES - |Crowded(0)|;
    CrowdedTree(n);
    t := Crowded(n);
    LacksTemp(t);
  }

  lemma TempEntry()
    ensures BaseAt(26) == Base(0, 1, "temp", true) && BasePath(0) == []
  {
  }

  lemma LacksTemp(t: Tree)
    requires ["temp"] !in t
    ensures Missing(t) > 0
  {
    TempEntry();
    assert BasePath(26) == ["temp"];
    assert BaseNodes()[26].0 in Absent(t, BaseNodes());
  }
}
