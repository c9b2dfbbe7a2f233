/**
  The 256-slot node table as a value: each slot is free or holds one node. The lemmas
  say how editing one slot, or every slot under a path, changes the tree it denotes.
 */
module FsTable {
  import opened Basics
  import opened Paths
  import opened FsTree

  const MAX_NODES := 256  // FS_MAX_NODES

  datatype Slot = Free | Node(path: Path, dir: bool, data: seq<byte>)

  type Table = seq<Slot>

  /** No path occurs in two slots. */
  predicate Unique(v: Table) {
    forall i, j {:trigger Same(v, i, j)} :: 0 <= i < |v| && 0 <= j < |v| && Same(v, i, j) ==> i == j
  }

  predicate Same(v: Table, i: nat, j: nat)
    requires i < |v| && j < |v|
  {
    v[i].Node? && v[j].Node? && v[i].path == v[j].path
  }

  lemma NoneSame(v: Table)
    requires Unique(v)
    ensures forall i, j :: 0 <= i < |v| && 0 <= j < |v| && v[i].Node? && v[j].Node? && v[i].path == v[j].path ==> i == j
  {
    forall i, j | 0 <= i < |v| && 0 <= j < |v| && v[i].Node? && v[j].Node? && v[i].path == v[j].path
      ensures i == j
    {
      assert Same(v, i, j);
    }
  }

  lemma OneSlot(v: Table, i: nat, j: nat)
    requires Unique(v) && i < |v| && j < |v| && Same(v, i, j)
    ensures i == j
  {
  }

  predicate At(v: Table, i: int, p: Path) {
    0 <= i < |v| && v[i].Node? && v[i].path == p
  }

  function EntryOf(s: Slot): Entry
    requires s.Node?
  {
    Entry(s.dir, s.data)
  }

  /** The tree t has exactly one node for every used slot. */
  ghost predicate Denotes(v: Table, t: Tree) {
    && (forall i {:trigger Shows(v, t, i)} :: 0 <= i < |v| ==> Shows(v, t, i))
    && (forall p {:trigger Held(v, p)} :: p in t ==> Held(v, p))
  }

  ghost predicate Shows(v: Table, t: Tree, i: nat)
    requires i < |v|
  {
    v[i].Node? ==> v[i].path in t && t[v[i].path] == EntryOf(v[i])
  }

  ghost predicate Held(v: Table, p: Path) {
    exists i :: At(v, i, p)
  }

  lemma Denoted(v: Table)
    requires Unique(v)
    ensures exists t :: Denotes(v, t)
  {
    NoneSame(v);
    var t := map i | 0 <= i < |v| && v[i].Node? :: v[i].path := EntryOf(v[i]);
    forall p | p in t
      ensures Held(v, p)
    {
      var i :| 0 <= i < |v| && v[i].Node? && v[i].path == p;
      assert At(v, i, p);
    }
    assert Denotes(v, t);
  }

  /** The tree a table denotes. */
  ghost function TreeOf(v: Table): Tree
    requires Unique(v)
  {
    Denoted(v);
    var t :| Denotes(v, t);
    t
  }

  lemma TreeAt(v: Table, i: nat)
    requires Unique(v) && i < |v| && v[i].Node?
    ensures v[i].path in TreeOf(v) && TreeOf(v)[v[i].path] == EntryOf(v[i])
  {
    assert Shows(v, TreeOf(v), i);
  }

  lemma SlotOf(v: Table, p: Path) returns (i: nat)
    requires Unique(v) && p in TreeOf(v)
    ensures At(v, i, p) && TreeOf(v)[p] == EntryOf(v[i])
  {
    assert Held(v, p);
    i :| At(v, i, p);
    TreeAt(v, i);
  }

  /** A path in no slot is not in the tree. */
  lemma NotHeld(v: Table, p: Path)
    requires Unique(v) && forall i :: 0 <= i < |v| && v[i].Node? ==> v[i].path != p
    ensures p !in TreeOf(v)
  {
    if p in TreeOf(v) {
      var i := SlotOf(v, p);
    }
  }

  lemma NothingHeld(v: Table)
    requires forall i :: 0 <= i < |v| ==> v[i].Free?
    ensures Unique(v) && TreeOf(v) == map[]
  {
    forall p | Unique(v) && p in TreeOf(v)
      ensures false
    {
      NotHeld(v, p);
    }
  }

  /** Filling a free slot with a new path adds one entry. */
  lemma AddSlot(v: Table, i: nat, s: Slot)
    requires Unique(v) && i < |v| && v[i].Free? && s.Node? && s.path !in TreeOf(v)
    ensures Unique(v[i := s])
    ensures TreeOf(v[i := s]) == TreeOf(v)[s.path := EntryOf(s)]
  {
    var w := v[i := s];
    forall j | 0 <= j < |v| && v[j].Node?
      ensures v[j].path != s.path
    {
      TreeAt(v, j);
    }
    assert forall j, k :: 0 <= j < |v| && 0 <= k < |v| && Same(w, j, k) && j != i && k != i ==> Same(v, j, k);
    assert Unique(w);
    var t, t' := TreeOf(v)[s.path := EntryOf(s)], TreeOf(w);
    forall p | p in t
      ensures p in t' && t'[p] == t[p]
    {
      if p == s.path {
        TreeAt(w, i);
      } else {
        var j := SlotOf(v, p);
        TreeAt(w, j);
      }
    }
    forall p | p in t'
      ensures p in t
    {
      var j := SlotOf(w, p);
      if j != i { TreeAt(v, j); }
    }
  }

  /** Rewriting the data of a node changes that entry only. */
  lemma SetSlotData(v: Table, i: nat, data: seq<byte>)
    requires Unique(v) && i < |v| && v[i].Node?
    ensures var w := v[i := v[i].(data := data)];
            Unique(w) && TreeOf(w) == TreeOf(v)[v[i].path := Entry(v[i].dir, data)]
  {
    var w := v[i := v[i].(data := data)];
    assert forall j, k :: 0 <= j < |v| && 0 <= k < |v| && Same(w, j, k) ==> Same(v, j, k);
    assert Unique(w);
    var t, t' := TreeOf(v)[v[i].path := Entry(v[i].dir, data)], TreeOf(w);
    forall p | p in t
      ensures p in t' && t'[p] == t[p]
    {
      if p == v[i].path {
        TreeAt(w, i);
      } else {
        var j := SlotOf(v, p);
        TreeAt(w, j);
      }
    }
    forall p | p in t'
      ensures p in t
    {
      var j := SlotOf(w, p);
      TreeAt(v, j);
    }
  }

  // ----------------------------------------------------------------
  // Whole-table edits
  // ----------------------------------------------------------------

  predicate Under(s: Slot, p: Path) {
    s.Node? && p <= s.path
  }

  /** The table with every node at or under p freed. */
  function Cleared(v: Table, p: Path): Table {
    seq(|v|, i requires 0 <= i < |v| => if Under(v[i], p) then Free else v[i])
  }

  lemma ClearedTree(v: Table, p: Path)
    requires Unique(v)
    ensures Unique(Cleared(v, p))
    ensures TreeOf(Cleared(v, p)) == RemoveTree(TreeOf(v), p)
  {
    var w := Cleared(v, p);
    assert forall j, k :: 0 <= j < |v| && 0 <= k < |v| && Same(w, j, k) ==> Same(v, j, k);
    assert Unique(w);
    var t, t' := RemoveTree(TreeOf(v), p), TreeOf(w);
    forall q | q in t
      ensures q in t' && t'[q] == t[q]
    {
      var j := SlotOf(v, q);
      TreeAt(w, j);
    }
    forall q | q in t'
      ensures q in t
    {
      var j := SlotOf(w, q);
      TreeAt(v, j);
    }
  }

  function MovedSlot(s: Slot, src: Path, dst: Path): Slot {
    if Under(s, src) then s.(path := Rebase(s.path, src, dst)) else s
  }

  /** The table with every node at or under src renamed in its own slot. */
  function Renamed(v: Table, src: Path, dst: Path): Table {
    seq(|v|, i requires 0 <= i < |v| => MovedSlot(v[i], src, dst))
  }

  lemma RenamedUnique(v: Table, src: Path, dst: Path)
    requires Unique(v) && WellFormed(TreeOf(v)) && dst !in TreeOf(v)
    ensures Unique(Renamed(v, src, dst))
  {
    var w := Renamed(v, src, dst);
    forall i, j | 0 <= i < |w| && 0 <= j < |w| && Same(w, i, j)
      ensures i == j
    {
      TreeAt(v, i);
      TreeAt(v, j);
      MovedInjective(TreeOf(v), src, dst, v[i].path, v[j].path);
      OneSlot(v, i, j);
    }
  }

  /** Renaming slot by slot moves the subtree of the tree. */
  lemma RenamedTree(v: Table, src: Path, dst: Path)
    requires Unique(v) && WellFormed(TreeOf(v)) && dst !in TreeOf(v)
    ensures Unique(Renamed(v, src, dst))
    ensures IsMove(TreeOf(v), TreeOf(Renamed(v, src, dst)), src, dst)
  {
    RenamedUnique(v, src, dst);
    var w := Renamed(v, src, dst);
    forall q | q in TreeOf(v)
      ensures Moved(q, src, dst) in TreeOf(w) && TreeOf(w)[Moved(q, src, dst)] == TreeOf(v)[q]
    {
      var j := SlotOf(v, q);
      TreeAt(w, j);
    }
    RenamedOrigin(v, w, src, dst);
  }

  lemma RenamedOrigin(v: Table, w: Table, src: Path, dst: Path)
    requires Unique(v) && w == Renamed(v, src, dst) && Unique(w)
    ensures forall r :: r in TreeOf(w) ==> Came(TreeOf(v), r, src, dst)
  {
    forall r | r in TreeOf(w)
      ensures Came(TreeOf(v), r, src, dst)
    {
      var j := SlotOf(w, r);
      TreeAt(v, j);
      assert Moved(v[j].path, src, dst) == r;
    }
  }

  /** The slots below n would fit under their rebased paths. */
  ghost predicate FitUpTo(v: Table, n: nat, src: Path, dst: Path)
    requires n <= |v|
  {
    forall j :: 0 <= j < n ==> SlotFits(v[j], src, dst)
  }

  predicate SlotFits(s: Slot, src: Path, dst: Path) {
    Under(s, src) ==> Fits(Rebase(s.path, src, dst))
  }

  lemma FitStep(v: Table, n: nat, src: Path, dst: Path)
    requires n < |v| && FitUpTo(v, n, src, dst) && SlotFits(v[n], src, dst)
    ensures FitUpTo(v, n + 1, src, dst)
  {
  }

  lemma FitAll(v: Table, src: Path, dst: Path)
    requires Unique(v) && FitUpTo(v, |v|, src, dst)
    ensures AllFitAt(TreeOf(v), src, dst)
  {
    forall q | q in TreeOf(v) && src <= q
      ensures Fits(Rebase(q, src, dst))
    {
      var j := SlotOf(v, q);
      assert SlotFits(v[j], src, dst);
    }
  }

  lemma Misfit(v: Table, i: nat, src: Path, dst: Path)
    requires Unique(v) && i < |v| && !SlotFits(v[i], src, dst)
    ensures !AllFitAt(TreeOf(v), src, dst)
  {
    TreeAt(v, i);
  }

  // ----------------------------------------------------------------
  // Counting slots
  // ----------------------------------------------------------------

  function FreeCount(v: Table): nat {
    if v == [] then 0 else FreeCount(v[..|v| - 1]) + if v[|v| - 1].Free? then 1 else 0
  }

  function UnderCount(v: Table, p: Path): nat {
    if v == [] then 0 else UnderCount(v[..|v| - 1], p) + if Under(v[|v| - 1], p) then 1 else 0
  }

  lemma {:induction false} FillLowersFree(v: Table, i: nat, s: Slot)
    requires i < |v| && v[i].Free? && s.Node?
    ensures FreeCount(v[i := s]) == FreeCount(v) - 1
  {
    var n := |v| - 1;
    if i < n {
      FillLowersFree(v[..n], i, s);
      assert v[i := s][..n] == v[..n][i := s];
    } else {
      assert v[i := s][..n] == v[..n];
    }
  }

  predicate Full(v: Table) {
    forall i :: 0 <= i < |v| ==> v[i].Node?
  }

  lemma {:induction false} FullCount(v: Table)
    ensures Full(v) <==> FreeCount(v) == 0
  {
    if v != [] {
      var n := |v| - 1;
      FullCount(v[..n]);
      assert forall i :: 0 <= i < n ==> v[..n][i] == v[i];
    }
  }

  lemma UnderCountSnoc(v: Table, p: Path, i: nat)
    requires i < |v|
    ensures UnderCount(v[..i + 1], p) == UnderCount(v[..i], p) + if Under(v[i], p) then 1 else 0
  {
    assert v[..i + 1][..i] == v[..i];
  }

  lemma {:induction false} UnderCountGrows(v: Table, p: Path, i: nat)
    requires i <= |v|
    ensures UnderCount(v[..i], p) <= UnderCount(v, p)
    decreases |v| - i
  {
    if i == |v| {
      assert v[..i] == v;
    } else {
      UnderCountSnoc(v, p, i);
      UnderCountGrows(v, p, i + 1);
    }
  }

  /** The nodes of a tree at or under p. */
  ghost function Below(t: Tree, p: Path): set<Path> {
    set q | q in t && p <= q
  }

  ghost function PathsBelow(v: Table, n: nat, p: Path): set<Path>
    requires n <= |v|
  {
    set i | 0 <= i < n && Under(v[i], p) :: v[i].path
  }

  lemma PathsStep(v: Table, n: nat, p: Path)
    requires Unique(v) && n < |v|
    ensures PathsBelow(v, n + 1, p) == PathsBelow(v, n, p) + if Under(v[n], p) then {v[n].path} else {}
    ensures Under(v[n], p) ==> v[n].path !in PathsBelow(v, n, p)
  {
    forall q | q in PathsBelow(v, n + 1, p)
      ensures q in PathsBelow(v, n, p) || (Under(v[n], p) && q == v[n].path)
    {
      var i :| 0 <= i < n + 1 && Under(v[i], p) && v[i].path == q;
    }
    forall i | 0 <= i < n && Under(v[i], p) && Under(v[n], p)
      ensures v[i].path != v[n].path
    {
      assert !Same(v, i, n);
    }
  }

  /** Counting slots counts nodes: no path occurs twice. */
  lemma {:induction false} CountsPaths(v: Table, n: nat, p: Path)
    requires Unique(v) && n <= |v|
    ensures UnderCount(v[..n], p) == |PathsBelow(v, n, p)|
  {
    if n > 0 {
      CountsPaths(v, n - 1, p);
      UnderCountSnoc(v, p, n - 1);
      PathsStep(v, n - 1, p);
    }
  }

  lemma UnderIsBelow(v: Table, p: Path)
    requires Unique(v)
    ensures UnderCount(v, p) == |Below(TreeOf(v), p)|
  {
    CountsPaths(v, |v|, p);
    assert v[..|v|] == v;
    forall q | q in Below(TreeOf(v), p)
      ensures q in PathsBelow(v, |v|, p)
    {
      var i := SlotOf(v, q);
    }
    forall q | q in PathsBelow(v, |v|, p)
      ensures q in Below(TreeOf(v), p)
    {
      var i :| 0 <= i < |v| && Under(v[i], p) && v[i].path == q;
      TreeAt(v, i);
    }
    assert PathsBelow(v, |v|, p) == Below(TreeOf(v), p);
  }

  lemma {:induction false} UsedAndFree(v: Table)
    ensures UnderCount(v, []) + FreeCount(v) == |v|
  {
    if v != [] {
      UsedAndFree(v[..|v| - 1]);
    }
  }

  /** Every slot is free or holds one node of the tree. */
  lemma TreeSize(v: Table)
    requires Unique(v)
    ensures |TreeOf(v)| + FreeCount(v) == |v|
  {
    UsedAndFree(v);
    UnderIsBelow(v, []);
    assert Below(TreeOf(v), []) == TreeOf(v).Keys;
  }

  // ----------------------------------------------------------------
  // Copying: the state in the middle of the loop
  // ----------------------------------------------------------------

  /**
    The copy loop has handled the slots below i of the table v and left w: every node of
    v is still in its slot; what else w holds are the twins of the nodes handled so far.
   */
  ghost predicate CopyInProgress(v: Table, w: Table, i: nat, src: Path, dst: Path) {
    && |w| == |v| && i <= |v| && Unique(v) && Unique(w)
    && (forall j :: 0 <= j < |v| && v[j].Node? ==> w[j] == v[j])
    && (forall j :: 0 <= j < i && Under(v[j], src) ==> HasTwin(w, v[j], src, dst))
    && (forall k :: 0 <= k < |v| && v[k].Free? && w[k].Node? ==> IsTwin(v, i, w[k], src, dst))
  }

  ghost predicate HasTwin(w: Table, s: Slot, src: Path, dst: Path)
    requires Under(s, src)
  {
    exists k :: 0 <= k < |w| && w[k] == MovedSlot(s, src, dst)
  }

  ghost predicate IsTwin(v: Table, i: nat, s: Slot, src: Path, dst: Path)
    requires i <= |v|
  {
    exists j :: 0 <= j < i && Under(v[j], src) && s == MovedSlot(v[j], src, dst)
  }

  /** A finished loop has copied the subtree. */
  lemma CopyDone(v: Table, w: Table, src: Path, dst: Path)
    requires CopyInProgress(v, w, |v|, src, dst)
    ensures IsCopy(TreeOf(v), TreeOf(w), src, dst)
  {
    var t, t' := TreeOf(v), TreeOf(w);
    forall q | q in t
      ensures Stays(t, t', q)
      ensures src <= q ==> var r := Rebase(q, src, dst); r in t' && t'[r] == t[q]
    {
      var j := SlotOf(v, q);
      TreeAt(w, j);
      if src <= q {
        assert HasTwin(w, v[j], src, dst);
        var k :| 0 <= k < |w| && w[k] == MovedSlot(v[j], src, dst);
        TreeAt(w, k);
      }
    }
    forall r | r in t'
      ensures r in t || Twin(t, r, src, dst)
    {
      var k := SlotOf(w, r);
      if v[k].Node? {
        TreeAt(v, k);
      } else {
        assert IsTwin(v, |v|, w[k], src, dst);
        var j :| 0 <= j < |v| && Under(v[j], src) && w[k] == MovedSlot(v[j], src, dst);
        TreeAt(v, j);
      }
    }
  }

  /** A node the loop meets under src is an old node: twins are never copied again. */
  lemma NeverRecopied(v: Table, w: Table, i: nat, src: Path, dst: Path)
    requires CopyInProgress(v, w, i, src, dst) && i < |v|
    requires WellFormed(TreeOf(v)) && src in TreeOf(v) && dst !in TreeOf(v) && !(src <= dst)
    ensures Under(w[i], src) <==> Under(v[i], src)
  {
    if v[i].Free? && w[i].Node? {
      var j :| 0 <= j < i && Under(v[j], src) && w[i] == MovedSlot(v[j], src, dst);
      RebasedOutside(TreeOf(v), src, dst, v[j].path);
    }
  }

  /** The target of the node in slot i is not yet in the table. */
  lemma TargetIsNew(v: Table, w: Table, i: nat, src: Path, dst: Path)
    requires CopyInProgress(v, w, i, src, dst) && i < |v| && Under(v[i], src)
    requires WellFormed(TreeOf(v)) && dst !in TreeOf(v)
    ensures Rebase(v[i].path, src, dst) !in TreeOf(w)
  {
    var target := Rebase(v[i].path, src, dst);
    RebaseInjective(v[i].path, v[i].path, src, dst);
    forall k | 0 <= k < |w| && w[k].Node?
      ensures w[k].path != target
    {
      if v[k].Node? {
        TreeAt(v, k);
        NothingBelow(TreeOf(v), dst, v[k].path);
      } else {
        assert IsTwin(v, i, w[k], src, dst);
        var j :| 0 <= j < i && Under(v[j], src) && w[k] == MovedSlot(v[j], src, dst);
        RebaseInjective(v[i].path, v[j].path, src, dst);
        assert !Same(v, i, j);
      }
    }
    NotHeld(w, target);
  }

  /** Filling any free slot with the twin of slot i advances the loop. */
  lemma CopyStep(v: Table, w: Table, i: nat, k: nat, src: Path, dst: Path)
    requires CopyInProgress(v, w, i, src, dst) && i < |v| && Under(v[i], src)
    requires k < |w| && w[k].Free?
    requires Rebase(v[i].path, src, dst) !in TreeOf(w)
    ensures CopyInProgress(v, w[k := MovedSlot(v[i], src, dst)], i + 1, src, dst)
  {
    var twin := MovedSlot(v[i], src, dst);
    var w' := w[k := twin];
    AddSlot(w, k, twin);
    forall j | 0 <= j < i + 1 && Under(v[j], src)
      ensures HasTwin(w', v[j], src, dst)
    {
      if j == i {
        assert w'[k] == twin;
      } else {
        assert HasTwin(w, v[j], src, dst);
        var m :| 0 <= m < |w| && w[m] == MovedSlot(v[j], src, dst);
        assert w'[m] == w[m];
      }
    }
    forall m | 0 <= m < |v| && v[m].Free? && w'[m].Node?
      ensures IsTwin(v, i + 1, w'[m], src, dst)
    {
      if m != k {
        assert IsTwin(v, i, w[m], src, dst);
        var j :| 0 <= j < i && Under(v[j], src) && w[m] == MovedSlot(v[j], src, dst);
      }
    }
  }

  lemma CopySkip(v: Table, w: Table, i: nat, src: Path, dst: Path)
    requires CopyInProgress(v, w, i, src, dst) && i < |v| && !Under(v[i], src)
    ensures CopyInProgress(v, w, i + 1, src, dst)
  {
  }
}
