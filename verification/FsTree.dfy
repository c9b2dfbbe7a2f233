/**
  The directory tree behind the node table of source/fs/filesystem.c.

  The kernel keeps a flat table of 256 slots, each holding an absolute path. The tree
  is the finite map from paths to entries that the used slots denote. This module says
  what removing, copying and moving a subtree mean on the map, and what slot-by-slot
  edits of the table do to it.
 */
module FsTree {
  import opened Basics
  import opened Paths

  datatype Entry = Entry(dir: bool, data: seq<byte>)

  type Tree = map<Path, Entry>

  predicate IsDir(t: Tree, p: Path) {
    p in t && t[p].dir
  }

  /** A proper path that fits its buffer. */
  predicate Storable(p: Path) {
    IsPath(p) && Fits(p)
  }

  /**
    The tree invariant: "/" is a directory; every path is canonical and fits its buffer;
    the parent of every other path is an existing directory.
   */
  ghost predicate WellFormed(t: Tree) {
    && IsDir(t, [])
    && (forall p {:trigger Storable(p)} :: p in t ==> Storable(p))
    && (forall p {:trigger Parent(p)} :: p in t && p != [] ==> IsDir(t, Parent(p)))
  }

  /** Every proper ancestor of an existing path is an existing directory. */
  lemma {:induction false} Ancestors(t: Tree, p: Path, q: Path)
    requires WellFormed(t) && p in t && q <= p && q != p
    ensures IsDir(t, q)
    decreases |p|
  {
    if q != Parent(p) {
      assert q <= Parent(p);
      Ancestors(t, Parent(p), q);
    }
  }

  // ----------------------------------------------------------------
  // Operations on trees
  // ----------------------------------------------------------------

  /** p and all its missing ancestors become empty directories. */
  ghost function WithDirs(t: Tree, p: Path): Tree
    decreases |p|
  {
    if p == [] then t else
      var u := WithDirs(t, Parent(p));
      if p in u then u else u[p := Entry(true, [])]
  }

  /** No file stands at p or at one of its ancestors. */
  predicate NoFileOnWay(t: Tree, p: Path)
    decreases |p|
  {
    (p in t ==> t[p].dir) && (p != [] ==> NoFileOnWay(t, Parent(p)))
  }

  /** Said of each path on the way. */
  lemma {:induction false} NoFileMeans(t: Tree, p: Path)
    ensures NoFileOnWay(t, p) <==> forall q :: q <= p && q in t ==> t[q].dir
    decreases |p|
  {
    if p != [] {
      NoFileMeans(t, Parent(p));
      forall q | q in t
        ensures q <= p <==> q == p || q <= Parent(p)
      {
        PrefixOfParent(q, p);
      }
    }
  }

  /** What WithDirs adds: the missing prefixes of p, as empty directories. */
  lemma {:induction false} WithDirsMeaning(t: Tree, p: Path, q: Path)
    requires IsDir(t, [])
    ensures q in WithDirs(t, p) <==> q in t || q <= p
    ensures q in t ==> WithDirs(t, p)[q] == t[q]
    ensures q <= p && q !in t ==> WithDirs(t, p)[q] == Entry(true, [])
    decreases |p|
  {
    if p != [] {
      WithDirsMeaning(t, Parent(p), q);
      PrefixOfParent(q, p);
      WithDirsMeaning(t, Parent(p), p);
    }
  }

  ghost function RemoveTree(t: Tree, p: Path): Tree {
    map q | q in t && !(p <= q) :: t[q]
  }

  function Moved(q: Path, src: Path, dst: Path): Path {
    if src <= q then Rebase(q, src, dst) else q
  }

  /** Every path under src still fits its buffer when it is rebased. */
  ghost predicate AllFitAt(t: Tree, src: Path, dst: Path) {
    forall q {:trigger Rebase(q, src, dst)} :: q in t && src <= q ==> Fits(Rebase(q, src, dst))
  }

  /** When a subtree can go from src to dst. */
  ghost predicate Movable(t: Tree, src: Path, dst: Path) {
    && WellFormed(t)
    && src in t && src != []
    && dst !in t && IsPath(dst) && dst != [] && IsDir(t, Parent(dst))
    && !(src <= dst)
    && AllFitAt(t, src, dst)
  }

  /** Nothing already in the tree lies at or under a free destination. */
  lemma NothingBelow(t: Tree, dst: Path, q: Path)
    requires WellFormed(t) && dst !in t && q in t
    ensures !(dst <= q)
  {
    if dst <= q && dst != q {
      Ancestors(t, q, dst);
    }
  }

  lemma RebaseInjective(p: Path, q: Path, src: Path, dst: Path)
    requires src <= p && src <= q
    ensures dst <= Rebase(p, src, dst)
    ensures Rebase(p, src, dst) == Rebase(q, src, dst) <==> p == q
  {
    assert Rebase(p, src, dst)[|dst|..] == p[|src|..];
    assert Rebase(q, src, dst)[|dst|..] == q[|src|..];
    assert p == src + p[|src|..] && q == src + q[|src|..];
  }

  /** No two nodes collide when a subtree is rebased. */
  lemma MovedInjective(t: Tree, src: Path, dst: Path, p: Path, q: Path)
    requires WellFormed(t) && dst !in t
    requires p in t && q in t
    ensures Moved(p, src, dst) == Moved(q, src, dst) <==> p == q
  {
    NothingBelow(t, dst, p);
    NothingBelow(t, dst, q);
    if src <= p && src <= q {
      RebaseInjective(p, q, src, dst);
    } else if src <= p {
      RebaseInjective(p, p, src, dst);
    } else if src <= q {
      RebaseInjective(q, q, src, dst);
    }
  }

  /** The tree after a move: every path under src is rebased, the others stay. */
  ghost predicate IsMove(t: Tree, t': Tree, src: Path, dst: Path) {
    && (forall q {:trigger Moved(q, src, dst)} :: q in t ==> Moved(q, src, dst) in t' && t'[Moved(q, src, dst)] == t[q])
    && (forall r {:trigger Came(t, r, src, dst)} :: r in t' ==> Came(t, r, src, dst))
  }

  /** r is where some node of t has gone. */
  ghost predicate Came(t: Tree, r: Path, src: Path, dst: Path) {
    exists q :: q in t && Moved(q, src, dst) == r
  }

  /** r is the twin of some node of t. */
  ghost predicate Twin(t: Tree, r: Path, src: Path, dst: Path) {
    exists q :: q in t && src <= q && Rebase(q, src, dst) == r
  }

  ghost predicate Stays(t: Tree, t': Tree, q: Path)
    requires q in t
  {
    q in t' && t'[q] == t[q]
  }

  /** The tree after a copy: nothing old changes, every path under src gains a twin. */
  ghost predicate IsCopy(t: Tree, t': Tree, src: Path, dst: Path) {
    && (forall q {:trigger Stays(t, t', q)} :: q in t ==> Stays(t, t', q))
    && (forall q {:trigger Rebase(q, src, dst)} :: q in t && src <= q ==> var r := Rebase(q, src, dst); r in t' && t'[r] == t[q])
    && (forall r {:trigger Twin(t, r, src, dst)} :: r in t' ==> r in t || Twin(t, r, src, dst))
  }

  lemma RebaseParent(q: Path, src: Path, dst: Path)
    requires src <= q && src != q
    ensures src <= Parent(q) && Rebase(q, src, dst) != []
    ensures Parent(Rebase(q, src, dst)) == Rebase(Parent(q), src, dst)
  {
  }

  lemma RebaseIsPath(q: Path, src: Path, dst: Path)
    requires src <= q && IsPath(q) && IsPath(dst)
    ensures IsPath(Rebase(q, src, dst))
  {
  }

  /** Two prefixes of one path are comparable. */
  lemma PrefixesCompare(a: Path, b: Path, r: Path)
    requires a <= r && b <= r
    ensures a <= b || b <= a
  {
  }

  lemma PrefixOfParent(p: Path, q: Path)
    requires q != []
    ensures p <= Parent(q) ==> p <= q
    ensures p <= q && p != q ==> p <= Parent(q)
  {
  }

  /** A rebased path never lands back inside the source. */
  lemma RebasedOutside(t: Tree, src: Path, dst: Path, q: Path)
    requires WellFormed(t) && src in t && dst !in t && !(src <= dst) && src <= q
    ensures !(src <= Rebase(q, src, dst))
  {
    NothingBelow(t, dst, src);
    RebaseInjective(q, q, src, dst);
    if src <= Rebase(q, src, dst) {
      PrefixesCompare(src, dst, Rebase(q, src, dst));
    }
  }

  /** A move keeps the tree invariant. */
  lemma MoveKeepsInvariant(t: Tree, t': Tree, src: Path, dst: Path)
    requires Movable(t, src, dst) && IsMove(t, t', src, dst)
    ensures WellFormed(t')
  {
    assert Moved([], src, dst) == [];
    forall r | r in t'
      ensures Storable(r)
      ensures r != [] ==> IsDir(t', Parent(r))
    {
      assert Came(t, r, src, dst);
      var q :| q in t && Moved(q, src, dst) == r;
      MovedNode(t, t', src, dst, q);
    }
  }

  lemma MovedNode(t: Tree, t': Tree, src: Path, dst: Path, q: Path)
    requires Movable(t, src, dst) && q in t
    requires forall q :: q in t ==> Moved(q, src, dst) in t' && t'[Moved(q, src, dst)] == t[q]
    ensures var r := Moved(q, src, dst);
            Storable(r) && (r != [] ==> IsDir(t', Parent(r)))
  {
    assert Storable(q);
    if src <= q {
      RebaseIsPath(q, src, dst);
      MovedParent(t, t', src, dst, q);
    } else if q != [] {
      PrefixOfParent(src, q);
      assert Moved(Parent(q), src, dst) == Parent(q);
    }
  }

  /** The moved tree is determined by the old one. */
  lemma MoveUnique(t: Tree, t1: Tree, t2: Tree, src: Path, dst: Path)
    requires IsMove(t, t1, src, dst) && IsMove(t, t2, src, dst)
    ensures t1 == t2
  {
    forall r | r in t1 || r in t2
      ensures r in t1 && r in t2 && t1[r] == t2[r]
    {
      assert r in t1 ==> Came(t, r, src, dst);
      assert r in t2 ==> Came(t, r, src, dst);
      var q :| q in t && Moved(q, src, dst) == r;
    }
  }

  lemma MovedBackPath(t: Tree, src: Path, dst: Path, q: Path)
    requires WellFormed(t) && dst !in t && q in t
    ensures Moved(Moved(q, src, dst), dst, src) == q
  {
    NothingBelow(t, dst, q);
    if src <= q {
      RebaseInjective(q, q, src, dst);
      assert Rebase(q, src, dst)[|dst|..] == q[|src|..];
      assert q == src + q[|src|..];
    }
  }

  /** Moving the subtree back from dst to src restores the old tree. */
  lemma MoveBack(t: Tree, t': Tree, src: Path, dst: Path)
    requires WellFormed(t) && dst !in t && IsMove(t, t', src, dst)
    ensures IsMove(t', t, dst, src)
  {
    forall q | q in t
      ensures Moved(Moved(q, src, dst), dst, src) == q
    {
      MovedBackPath(t, src, dst, q);
    }
    forall r | r in t'
      ensures Moved(r, dst, src) in t && t[Moved(r, dst, src)] == t'[r]
    {
      assert Came(t, r, src, dst);
      var q :| q in t && Moved(q, src, dst) == r;
    }
    forall q | q in t
      ensures Came(t', q, dst, src)
    {
      assert Moved(q, src, dst) in t' && Moved(Moved(q, src, dst), dst, src) == q;
    }
  }

  lemma MovedParent(t: Tree, t': Tree, src: Path, dst: Path, q: Path)
    requires Movable(t, src, dst) && q in t && src <= q
    requires forall q :: q in t ==> Moved(q, src, dst) in t' && t'[Moved(q, src, dst)] == t[q]
    ensures Rebase(q, src, dst) != []
    ensures IsDir(t', Parent(Rebase(q, src, dst)))
  {
    if q == src {
      assert Rebase(q, src, dst) == dst;
      PrefixOfParent(src, dst);
      assert Moved(Parent(dst), src, dst) == Parent(dst);
    } else {
      RebaseParent(q, src, dst);
      assert Moved(Parent(q), src, dst) == Parent(Rebase(q, src, dst));
    }
  }

  /** A copy keeps the tree invariant. */
  lemma CopyKeepsInvariant(t: Tree, t': Tree, src: Path, dst: Path)
    requires Movable(t, src, dst) && IsCopy(t, t', src, dst)
    ensures WellFormed(t')
  {
    assert Stays(t, t', []);
    forall r | r in t'
      ensures Storable(r)
      ensures r != [] ==> IsDir(t', Parent(r))
    {
      if r in t {
        assert Stays(t, t', r);
        assert r != [] ==> IsDir(t, Parent(r)) && Stays(t, t', Parent(r));
      } else {
        assert Twin(t, r, src, dst);
        var q :| q in t && src <= q && Rebase(q, src, dst) == r;
        assert Storable(q);
        RebaseIsPath(q, src, dst);
        if q == src {
          assert Rebase(q, src, dst) == dst && Stays(t, t', Parent(dst));
        } else {
          RebaseParent(q, src, dst);
        }
      }
    }
  }

  /** Removing a subtree other than "/" keeps the tree invariant. */
  lemma RemoveKeepsInvariant(t: Tree, p: Path)
    requires WellFormed(t) && p != []
    ensures WellFormed(RemoveTree(t, p))
  {
    forall q | q in RemoveTree(t, p) && q != []
      ensures IsDir(RemoveTree(t, p), Parent(q))
    {
      PrefixOfParent(p, q);
    }
  }

  /** Adding one entry under an existing directory keeps the tree invariant. */
  lemma AddKeepsInvariant(t: Tree, p: Path, e: Entry)
    requires WellFormed(t) && p !in t && p != [] && IsPath(p) && Fits(p) && IsDir(t, Parent(p))
    ensures WellFormed(t[p := e])
  {
  }

  /** Creating missing ancestors keeps the tree invariant. */
  lemma {:induction false} DirsKeepInvariant(t: Tree, p: Path)
    requires WellFormed(t) && IsPath(p) && Fits(p) && NoFileOnWay(t, p)
    ensures WellFormed(WithDirs(t, p))
    ensures IsDir(WithDirs(t, p), p)
    decreases |p|
  {
    if p != [] {
      var u := WithDirs(t, Parent(p));
      PrefixFits(Parent(p), p);
      DirsKeepInvariant(t, Parent(p));
      WithDirsMeaning(t, Parent(p), p);
      if p !in u {
        AddKeepsInvariant(u, p, Entry(true, []));
      }
    }
  }

  /** Nothing is created on the way to a path that exists. */
  lemma {:induction false} NothingToCreate(t: Tree, p: Path)
    requires WellFormed(t) && p in t
    ensures WithDirs(t, p) == t
    decreases |p|
  {
    if p != [] {
      assert IsDir(t, Parent(p));
      NothingToCreate(t, Parent(p));
    }
  }

  /** How many directories are missing on the way to p, p included. */
  ghost function MissingDirs(t: Tree, p: Path): nat
    decreases |p|
  {
    if p == [] then 0 else MissingDirs(t, Parent(p)) + if p in t then 0 else 1
  }

  lemma {:induction false} DirsSize(t: Tree, p: Path)
    requires IsDir(t, [])
    ensures |WithDirs(t, p)| == |t| + MissingDirs(t, p)
    decreases |p|
  {
    if p != [] {
      DirsSize(t, Parent(p));
      WithDirsMeaning(t, Parent(p), p);
      assert p <= Parent(p) ==> |p| <= |p| - 1;
    }
  }

  /** A longer path has at least as many directories missing. */
  lemma {:induction false} DirsGrow(t: Tree, p: Path, q: Path)
    requires q <= p
    ensures MissingDirs(t, q) <= MissingDirs(t, p)
    decreases |p|
  {
    if q != p {
      PrefixOfParent(q, p);
      DirsGrow(t, Parent(p), q);
    }
  }

  /** A file on the way to q is on the way to everything below q. */
  lemma {:induction false} NoFileDown(t: Tree, p: Path, q: Path)
    requires q <= p && NoFileOnWay(t, p)
    ensures NoFileOnWay(t, q)
    decreases |p|
  {
    if q != p {
      PrefixOfParent(q, p);
      NoFileDown(t, Parent(p), q);
    }
  }

  /** Below a missing path nothing exists, so no file can be on the way. */
  lemma {:induction false} MissingMeansNoFile(t: Tree, p: Path, q: Path)
    requires WellFormed(t) && q <= p && q != [] && NoFileOnWay(t, Parent(q)) && q !in t
    ensures NoFileOnWay(t, p)
    decreases |p|
  {
    if p in t {
      NothingBelow(t, q, p);
    }
    if p != q {
      PrefixOfParent(q, p);
      MissingMeansNoFile(t, Parent(p), q);
    }
  }

  /** The destination stays free, and apart from the source, when its parent is created. */
  lemma ReadyToMove(t: Tree, src: Path, dst: Path)
    requires WellFormed(t) && src in t && src != [] && dst !in t && dst != [] && IsPath(dst) && Fits(dst)
    requires t[src].dir ==> !(src <= dst)
    requires NoFileOnWay(t, Parent(dst))
    ensures var u := WithDirs(t, Parent(dst));
            WellFormed(u) && src in u && dst !in u && IsDir(u, Parent(dst)) && !(src <= dst)
  {
    PrefixFits(Parent(dst), dst);
    DirsKeepInvariant(t, Parent(dst));
    WithDirsMeaning(t, Parent(dst), src);
    WithDirsMeaning(t, Parent(dst), dst);
    if src <= dst {
      PrefixOfParent(src, dst);
      NoFileDown(t, Parent(dst), src);
    }
  }

  /** Creating ancestors of dst adds nothing under src. */
  lemma GrowthOutside(t: Tree, src: Path, dst: Path, q: Path)
    requires IsDir(t, []) && dst != [] && !(src <= dst) && src <= q
    ensures q in WithDirs(t, Parent(dst)) <==> q in t
    ensures q in t ==> WithDirs(t, Parent(dst))[q] == t[q]
  {
    WithDirsMeaning(t, Parent(dst), q);
    PrefixOfParent(q, dst);
    assert q <= dst ==> src <= dst;
  }

  /** Rewriting the data of a file keeps the tree invariant. */
  lemma SetDataKeepsInvariant(t: Tree, p: Path, data: seq<byte>)
    requires WellFormed(t) && p in t && !t[p].dir
    ensures WellFormed(t[p := Entry(false, data)])
  {
    var t' := t[p := Entry(false, data)];
    forall q | q in t' && q != []
      ensures IsDir(t', Parent(q))
    {
      assert IsDir(t, Parent(q));
    }
  }
}
