/**
  RootEdit's buffers (source/editor/rootedit.c): the text array edited in place and the
  two rings of 24 snapshots. Every operation does to `Current()` what EditHistory says.
 */
module RootEdit {
  import opened EditHistory

  /** count entries read from a ring, from index start on. */
  function RingSeq(slots: seq<Snapshot>, start: nat, count: nat): (s: seq<Snapshot>)
    requires |slots| == DEPTH
    ensures |s| == count
  {
    seq(count, i requires 0 <= i < count => slots[(start + i) % DEPTH])
  }

  lemma OtherSlot(start: nat, i: nat, j: nat)
    requires i < j < i + DEPTH
    ensures (start + i) % DEPTH != (start + j) % DEPTH
  {
  }

  lemma RingGrows(slots: seq<Snapshot>, start: nat, count: nat, e: Snapshot)
    requires |slots| == DEPTH && start < DEPTH && count < DEPTH
    ensures RingSeq(slots[(start + count) % DEPTH := e], start, count + 1) == RingSeq(slots, start, count) + [e]
  {
    var was, now := RingSeq(slots, start, count), RingSeq(slots[(start + count) % DEPTH := e], start, count + 1);
    forall i | 0 <= i < count
      ensures now[i] == was[i]
    {
      OtherSlot(start, i, count);
    }
  }

  lemma RingTurns(slots: seq<Snapshot>, start: nat, e: Snapshot)
    requires |slots| == DEPTH && start < DEPTH
    ensures RingSeq(slots[start := e], (start + 1) % DEPTH, DEPTH) == RingSeq(slots, start, DEPTH)[1..] + [e]
  {
    var was, now := RingSeq(slots, start, DEPTH), RingSeq(slots[start := e], (start + 1) % DEPTH, DEPTH);
    forall i | 0 <= i < DEPTH
      ensures now[i] == if i + 1 < DEPTH then was[i + 1] else e
    {
      NextSlot(start, i);
    }
  }

  /** Slot i of a ring that starts one later. */
  lemma NextSlot(start: nat, i: nat)
    requires start < DEPTH && i < DEPTH
    ensures ((start + 1) % DEPTH + i) % DEPTH == (start + (i + 1)) % DEPTH
    ensures (start + (i + 1)) % DEPTH == start <==> i + 1 == DEPTH
  {
  }

  /** A ring of snapshots: the oldest is at start, the newest at start + count - 1. */
  class Ring {
    const slots: array<Snapshot>
    var start: nat
    var count: nat

    ghost predicate Valid()
      reads this
    {
      slots.Length == DEPTH && start < DEPTH && count <= DEPTH
    }

    /** The entries, oldest first. */
    ghost function Entries(): (s: seq<Snapshot>)
      requires Valid()
      reads this, slots
      ensures |s| == count
    {
      RingSeq(slots[..], start, count)
    }

    constructor ()
      ensures Valid() && Entries() == [] && fresh(slots)
    {
      slots := new Snapshot[DEPTH](_ => Snapshot([], 0));
      start, count := 0, 0;
    }

    method Clear()
      requires Valid()
      modifies this
      ensures Valid() && Entries() == []
    {
      start, count := 0, 0;
    }

    /** snapshot_stack_push */
    method PushEntry(e: Snapshot)
      requires Valid()
      modifies this, slots
      ensures Valid() && Entries() == Push(old(Entries()), e)
    {
      var index;
      if count < DEPTH {
        RingGrows(slots[..], start, count, e);
        index := (start + count) % DEPTH;
        count := count + 1;
      } else {
        RingTurns(slots[..], start, e);
        index := start;
        start := (start + 1) % DEPTH;
      }
      ghost var was := slots[..];
      slots[index] := e;
      assert slots[..] == was[index := e];
    }

    /** snapshot_stack_pop */
    method Pop() returns (ok: bool, e: Snapshot)
      requires Valid()
      modifies this
      ensures Valid() && ok == (old(Entries()) != [])
      ensures ok ==> old(Entries()) == Entries() + [e]
      ensures !ok ==> Entries() == []
    {
      if count == 0 {
        return false, Snapshot([], 0);
      }
      e := slots[(start + count - 1) % DEPTH];
      count := count - 1;
      if count == 0 {
        start := 0;
      }
      return true, e;
    }
  }

  lemma OneMore(was: seq<Codepoint>, now: seq<Codepoint>, p: nat, c: Codepoint)
    requires p <= |was| && |now| == |was| + 1 && now[p] == c
    requires forall k :: 0 <= k < p ==> now[k] == was[k]
    requires forall k :: p < k <= |was| ==> now[k] == was[k - 1]
    ensures now == was[..p] + [c] + was[p..]
  {
  }

  lemma OneLess(was: seq<Codepoint>, now: seq<Codepoint>, p: nat)
    requires p < |was| && |now| == |was| - 1
    requires forall k :: 0 <= k < p ==> now[k] == was[k]
    requires forall k :: p <= k < |now| ==> now[k] == was[k + 1]
    ensures now == was[..p] + was[p + 1..]
  {
    assert now[p..] == was[p + 1..];
    assert now == now[..p] + now[p..];
  }

  class Editor {
    const buffer: array<Codepoint>
    const undo: Ring
    const redo: Ring
    var length: nat
    var cursor: nat
    var group: Group

    ghost predicate Shape()
      reads this, undo, redo
    {
      && buffer.Length == CAPACITY && cursor <= length <= CAPACITY
      && undo != redo && undo.slots != redo.slots
      && undo.Valid() && redo.Valid()
    }

    /** The text, cursor and history this object holds. */
    ghost function Current(): State
      requires Shape()
      reads this, buffer, undo, redo, undo.slots, redo.slots
    {
      State(Now(), undo.Entries(), redo.Entries(), group)
    }

    ghost function Now(): Snapshot
      requires Shape()
      reads this, buffer, undo, redo
    {
      Snapshot(buffer[..length], cursor)
    }

    ghost predicate Valid()
      reads this, buffer, undo, redo, undo.slots, redo.slots
    {
      Shape() && Inv(Current())
    }

    /** Opening a file: text loaded, history reset. */
    constructor (text: seq<Codepoint>)
      requires |text| <= CAPACITY
      ensures Valid() && Current() == Opened(text)
      ensures fresh(buffer) && fresh(undo) && fresh(redo) && fresh(undo.slots) && fresh(redo.slots)
    {
      buffer := new Codepoint[CAPACITY](i requires 0 <= i < CAPACITY => if i < |text| then text[i] else 0);
      undo := new Ring();
      redo := new Ring();
      length, cursor, group := |text|, |text|, NoGroup;
    }

    /** editor_snapshot_capture */
    method Capture() returns (s: Snapshot)
      requires Shape()
      ensures s == Now()
    {
      s := Snapshot(buffer[..length], cursor);
    }

    /** editor_snapshot_restore */
    method Restore(s: Snapshot)
      requires Shape() && Fits(s)
      modifies this`length, this`cursor, buffer
      ensures Shape() && Now() == s
    {
      length, cursor := |s.text|, s.cursor;
      var i := 0;
      while i < |s.text|
        invariant i <= |s.text|
        invariant forall k :: 0 <= k < i ==> buffer[k] == s.text[k]
        modifies buffer
      {
        buffer[i] := s.text[i];
        i := i + 1;
      }
    }

    /** editor_record_undo */
    method RecordUndo(g: Group, force: bool)
      requires Shape()
      modifies this`group, undo, undo.slots, redo
      ensures Shape() && Current() == Record(old(Current()), g, force)
    {
      if !force && group == g {
        return;
      }
      var s := Capture();
      undo.PushEntry(s);
      redo.Clear();
      group := g;
    }

    /** editor_undo */
    method UndoLast() returns (ok: bool)
      requires Valid()
      modifies this, buffer, undo, redo, redo.slots
      ensures Valid() && Current() == Undo(old(Current()))
      ensures ok == (old(Current()).undo != [])
    {
      PressInv(Current(), UndoKey);
      var s;
      ok, s := undo.Pop();
      if ok {
        GoBack(s, old(Current()));
      }
    }

    /** The snapshot s has just left the undo stack of `was`. */
    method GoBack(s: Snapshot, ghost was: State)
      requires Shape() && Inv(was) && was.undo == undo.Entries() + [s]
      requires was.now == Now() && was.redo == redo.Entries()
      modifies this`length, this`cursor, this`group, buffer, redo, redo.slots
      ensures Shape() && Current() == Undo(was)
    {
      assert was.undo[|was.undo| - 1] == s && was.undo[..|was.undo| - 1] == undo.Entries();
      var t := Capture();
      redo.PushEntry(t);
      Restore(s);
      group := NoGroup;
    }

    /** editor_redo */
    method RedoLast() returns (ok: bool)
      requires Valid()
      modifies this, buffer, undo, undo.slots, redo
      ensures Valid() && Current() == Redo(old(Current()))
      ensures ok == (old(Current()).redo != [])
    {
      PressInv(Current(), RedoKey);
      var s;
      ok, s := redo.Pop();
      if ok {
        GoForward(s, old(Current()));
      }
    }

    /** The snapshot s has just left the redo stack of `was`. */
    method GoForward(s: Snapshot, ghost was: State)
      requires Shape() && Inv(was) && was.redo == redo.Entries() + [s]
      requires was.now == Now() && was.undo == undo.Entries()
      modifies this`length, this`cursor, this`group, buffer, undo, undo.slots
      ensures Shape() && Current() == Redo(was)
    {
      assert was.redo[|was.redo| - 1] == s && was.redo[..|was.redo| - 1] == redo.Entries();
      var t := Capture();
      undo.PushEntry(t);
      Restore(s);
      group := NoGroup;
    }

    /** editor_insert, with nothing selected */
    method InsertCodepoint(c: Codepoint)
      requires Shape()
      modifies this`length, this`cursor, buffer
      ensures Shape() && Now() == Insert(old(Now()), c)
    {
      if length >= CAPACITY {
        return;
      }
      ghost var was := buffer[..length];
      OpenGap(cursor);
      buffer[cursor] := c;
      cursor := cursor + 1;
      length := length + 1;
      OneMore(was, buffer[..length], cursor - 1, c);
    }

    /** Moves the text from place p on by one. */
    method OpenGap(p: nat)
      requires Shape() && p <= length < CAPACITY
      modifies buffer
      ensures forall k :: 0 <= k < p ==> buffer[k] == old(buffer[k])
      ensures forall k :: p < k <= length ==> buffer[k] == old(buffer[k - 1])
    {
      var i := length;
      while i > p
        invariant p <= i <= length
        invariant forall k :: 0 <= k <= i && k < length ==> buffer[k] == old(buffer[k])
        invariant forall k :: i < k <= length ==> buffer[k] == old(buffer[k - 1])
      {
        buffer[i] := buffer[i - 1];
        i := i - 1;
      }
    }

    /** Closes the gap of one code point at place p. */
    method RemoveAt(p: nat)
      requires Shape() && p < length
      modifies buffer
      ensures buffer[..length - 1] == old(buffer[..length][..p]) + old(buffer[..length][p + 1..])
    {
      var i := p;
      while i + 1 < length
        invariant p <= i < length
        invariant forall k :: 0 <= k < p || i <= k < length ==> buffer[k] == old(buffer[k])
        invariant forall k :: p <= k < i ==> buffer[k] == old(buffer[k + 1])
      {
        buffer[i] := buffer[i + 1];
        i := i + 1;
      }
      OneLess(old(buffer[..length]), buffer[..length - 1], p);
    }

    /** editor_backspace, with nothing selected */
    method EraseBefore()
      requires Shape()
      modifies this`length, this`cursor, buffer
      ensures Shape() && Now() == Backspace(old(Now()))
    {
      if cursor == 0 {
        return;
      }
      RemoveAt(cursor - 1);
      cursor := cursor - 1;
      length := length - 1;
    }

    /** editor_delete, with nothing selected */
    method EraseAfter()
      requires Shape()
      modifies this`length, buffer
      ensures Shape() && Now() == Delete(old(Now()))
    {
      if cursor >= length {
        return;
      }
      RemoveAt(cursor);
      length := length - 1;
    }

    /** Keys whose repetition is undone as one. */
    method EditKey(k: Key)
      requires Valid() && GroupOf(k) != NoGroup
      modifies this, buffer, undo, undo.slots, redo
      ensures Valid() && Current() == Press(old(Current()), k)
    {
      PressInv(Current(), k);
      RecordUndo(GroupOf(k), false);
      match k
      case Type(c) => InsertCodepoint(c);
      case Erase => EraseBefore();
      case EraseNext => EraseAfter();
    }

    /** Enter and Tab: n code points c, always an undo step of their own. */
    method InsertKey(c: Codepoint, n: nat)
      requires Shape() && Fits(Now())
      modifies this, buffer, undo, undo.slots, redo
      ensures Shape() && Current() == Record(old(Current()), NoGroup, true).(now := InsertTimes(old(Now()), c, n))
    {
      group := NoGroup;
      RecordUndo(NoGroup, true);
      InsertRun(c, n);
      group := NoGroup;
    }

    method InsertRun(c: Codepoint, n: nat)
      requires Shape()
      modifies this`length, this`cursor, buffer
      ensures Shape() && Now() == InsertTimes(old(Now()), c, n)
    {
      var i := 0;
      while i < n
        invariant i <= n && Shape() && Now() == InsertTimes(old(Now()), c, i)
      {
        InsertCodepoint(c);
        i := i + 1;
      }
    }

    /** The key loop of the editor, for keys pressed with nothing selected. */
    method PressKey(k: Key)
      requires Valid()
      modifies this, buffer, undo, undo.slots, redo, redo.slots
      ensures Valid() && Current() == Press(old(Current()), k)
    {
      PressInv(Current(), k);
      match k
      case Enter =>
        InsertKey(NEWLINE, 1);
      case Tab =>
        InsertKey(SPACE, 4);
      case Move(to) =>
        group := NoGroup;
        cursor := if to <= length then to else length;
      case UndoKey =>
        var _ := UndoLast();
      case RedoKey =>
        var _ := RedoLast();
      case _ =>
        EditKey(k);
    }
  }

  /** A whole editing session on a text: buffer and rings end as the history model says. */
  method Edit(text: seq<Codepoint>, keys: seq<Key>) returns (e: Editor)
    requires |text| <= CAPACITY
    ensures fresh(e) && e.Valid() && e.Current() == Run(Opened(text), keys)
  {
    e := new Editor(text);
    for i := 0 to |keys|
      invariant e.Valid() && Run(e.Current(), keys[i..]) == Run(Opened(text), keys)
    {
      e.PressKey(keys[i]);
      assert keys[i..][1..] == keys[i + 1..];
    }
  }
}
