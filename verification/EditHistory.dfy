/**
  RootEdit's text, cursor and undo history as values (source/editor/rootedit.c): what a
  key does to them, and what whole editing runs keep.
 */
module EditHistory {

  const DEPTH := 24        // ROOTEDIT_UNDO_DEPTH
  const CAPACITY := 4096   // ROOTEDIT_MAX_CODEPOINTS
  const NEWLINE := 10
  const SPACE := 32

  type Codepoint = nat

  datatype Snapshot = Snapshot(text: seq<Codepoint>, cursor: nat)

  datatype Group = NoGroup | InsertGroup | BackspaceGroup | DeleteGroup

  /** The newest entry of each stack is its last element. */
  datatype State = State(now: Snapshot, undo: seq<Snapshot>, redo: seq<Snapshot>, group: Group)

  predicate Fits(s: Snapshot) {
    s.cursor <= |s.text| <= CAPACITY
  }

  /** What holds after every key. */
  ghost predicate Inv(s: State) {
    && Fits(s.now) && (forall e :: e in s.undo || e in s.redo ==> Fits(e))
    && |s.undo| + |s.redo| <= DEPTH
    && (s.group != NoGroup ==> s.redo == [])
  }

  function Opened(text: seq<Codepoint>): State {
    State(Snapshot(text, |text|), [], [], NoGroup)
  }

  // ----------------------------------------------------------------
  // History
  // ----------------------------------------------------------------

  /** A bounded stack that forgets its oldest entry when full. */
  function Push<T>(stack: seq<T>, e: T): seq<T> {
    (if |stack| < DEPTH then stack else stack[1..]) + [e]
  }

  function Record(s: State, group: Group, force: bool): State {
    if !force && s.group == group then s else State(s.now, Push(s.undo, s.now), [], group)
  }

  function Undo(s: State): State {
    if s.undo == [] then s else
      var n := |s.undo| - 1;
      State(s.undo[n], s.undo[..n], Push(s.redo, s.now), NoGroup)
  }

  function Redo(s: State): State {
    if s.redo == [] then s else
      var n := |s.redo| - 1;
      State(s.redo[n], Push(s.undo, s.now), s.redo[..n], NoGroup)
  }

  // ----------------------------------------------------------------
  // Editing
  // ----------------------------------------------------------------

  function Insert(s: Snapshot, c: Codepoint): (r: Snapshot)
    requires Fits(s)
    ensures Fits(r)
  {
    if |s.text| >= CAPACITY then s
    else Snapshot(s.text[..s.cursor] + [c] + s.text[s.cursor..], s.cursor + 1)
  }

  function Backspace(s: Snapshot): (r: Snapshot)
    requires Fits(s)
    ensures Fits(r)
  {
    if s.cursor == 0 then s else Snapshot(s.text[..s.cursor - 1] + s.text[s.cursor..], s.cursor - 1)
  }

  function Delete(s: Snapshot): (r: Snapshot)
    requires Fits(s)
    ensures Fits(r)
  {
    if s.cursor >= |s.text| then s else Snapshot(s.text[..s.cursor] + s.text[s.cursor + 1..], s.cursor)
  }

  function InsertTimes(s: Snapshot, c: Codepoint, n: nat): (r: Snapshot)
    requires Fits(s)
    ensures Fits(r)
  {
    if n == 0 then s else Insert(InsertTimes(s, c, n - 1), c)
  }

  /** Typing and then erasing what was typed leaves text and cursor as they were. */
  lemma BackspaceUndoesInsert(s: Snapshot, c: Codepoint)
    requires Fits(s) && |s.text| < CAPACITY
    ensures Backspace(Insert(s, c)) == s
  {
  }

  /** insert_codepoint, by index: everything from the cursor on moves up by one; a full buffer stays. */
  lemma InsertAt(s: Snapshot, c: Codepoint, i: nat)
    requires Fits(s)
    ensures |s.text| == CAPACITY ==> Insert(s, c) == s
    ensures |s.text| < CAPACITY ==> |Insert(s, c).text| == |s.text| + 1 && Insert(s, c).cursor == s.cursor + 1
    ensures |s.text| < CAPACITY && i <= |s.text| ==>
              Insert(s, c).text[i] == if i < s.cursor then s.text[i] else if i == s.cursor then c else s.text[i - 1]
  {
  }

  /** backspace, by index: the code point before the cursor goes, the rest moves down. */
  lemma BackspaceAt(s: Snapshot, i: nat)
    requires Fits(s)
    ensures s.cursor == 0 ==> Backspace(s) == s
    ensures s.cursor > 0 ==> |Backspace(s).text| == |s.text| - 1 && Backspace(s).cursor == s.cursor - 1
    ensures s.cursor > 0 && i < |s.text| - 1 ==>
              Backspace(s).text[i] == if i < s.cursor - 1 then s.text[i] else s.text[i + 1]
  {
  }

  /** delete, by index: the code point at the cursor goes, the cursor stays. */
  lemma DeleteAt(s: Snapshot, i: nat)
    requires Fits(s)
    ensures s.cursor == |s.text| ==> Delete(s) == s
    ensures s.cursor < |s.text| ==> |Delete(s).text| == |s.text| - 1 && Delete(s).cursor == s.cursor
    ensures s.cursor < |s.text| && i < |s.text| - 1 ==>
              Delete(s).text[i] == if i < s.cursor then s.text[i] else s.text[i + 1]
  {
  }

  // ----------------------------------------------------------------
  // Keys
  // ----------------------------------------------------------------

  /** Keys with no selection active. Move stands for every key that only moves the cursor. */
  datatype Key = Type(c: Codepoint) | Erase | EraseNext | Enter | Tab | Move(to: nat) | UndoKey | RedoKey

  function Press(s: State, k: Key): (r: State)
    requires Fits(s.now)
  {
    match k
    case Type(c) => var t := Record(s, InsertGroup, false); t.(now := Insert(t.now, c))
    case Erase => var t := Record(s, BackspaceGroup, false); t.(now := Backspace(t.now))
    case EraseNext => var t := Record(s, DeleteGroup, false); t.(now := Delete(t.now))
    case Enter => Record(s, NoGroup, true).(now := InsertTimes(s.now, NEWLINE, 1))
    case Tab => Record(s, NoGroup, true).(now := InsertTimes(s.now, SPACE, 4))
    case Move(to) => s.(now := s.now.(cursor := if to <= |s.now.text| then to else |s.now.text|), group := NoGroup)
    case UndoKey => Undo(s)
    case RedoKey => Redo(s)
  }

  lemma PressInv(s: State, k: Key)
    requires Inv(s)
    ensures Inv(Press(s, k))
  {
  }

  function Run(s: State, keys: seq<Key>): (r: State)
    requires Inv(s)
    ensures Inv(r)
    decreases |keys|
  {
    if keys == [] then s else
      PressInv(s, keys[0]);
      Run(Press(s, keys[0]), keys[1..])
  }

  /** The keys that type a word. */
  function Typing(word: seq<Codepoint>): (keys: seq<Key>)
    ensures |keys| == |word|
  {
    if word == [] then [] else [Type(word[0])] + Typing(word[1..])
  }

  /** Typing a word puts it, as it is, where the cursor is, and the cursor behind it. */
  lemma {:induction false} TypedWord(s: State, word: seq<Codepoint>)
    requires Inv(s) && |s.now.text| + |word| <= CAPACITY
    ensures var r, at := Run(s, Typing(word)).now, s.now.cursor;
            r == Snapshot(s.now.text[..at] + word + s.now.text[at..], at + |word|)
    decreases |word|
  {
    if word == [] {
      assert s.now.text[..s.now.cursor] + word + s.now.text[s.now.cursor..] == s.now.text;
    } else {
      PressInv(s, Type(word[0]));
      var t := Press(s, Type(word[0]));
      assert Typing(word)[1..] == Typing(word[1..]);
      TypedWord(t, word[1..]);
      Spliced(s.now.text, s.now.cursor, word[0], word[1..]);
      assert word == [word[0]] + word[1..];
    }
  }

  lemma Spliced(text: seq<Codepoint>, at: nat, c: Codepoint, rest: seq<Codepoint>)
    requires at <= |text|
    ensures var u := text[..at] + [c] + text[at..];
            u[..at + 1] + rest + u[at + 1..] == text[..at] + ([c] + rest) + text[at..]
  {
    var u := text[..at] + [c] + text[at..];
    assert u[..at + 1] == text[..at] + [c] && u[at + 1..] == text[at..];
  }

  function Many(c: Codepoint, n: nat): (r: seq<Codepoint>)
    ensures |r| == n
  {
    if n == 0 then [] else Many(c, n - 1) + [c]
  }

  lemma InsertBehind(a: seq<Codepoint>, m: seq<Codepoint>, b: seq<Codepoint>, c: Codepoint)
    ensures var text, at := a + m + b, |a| + |m|; text[..at] + [c] + text[at..] == a + (m + [c]) + b
  {
    var text, at := a + m + b, |a| + |m|;
    assert text[..at] == a + m && text[at..] == b;
  }

  lemma {:induction false} InsertedTimes(s: Snapshot, c: Codepoint, n: nat)
    requires Fits(s) && |s.text| + n <= CAPACITY
    ensures InsertTimes(s, c, n) == Snapshot(s.text[..s.cursor] + Many(c, n) + s.text[s.cursor..], s.cursor + n)
  {
    if n == 0 {
      assert s.text[..s.cursor] + Many(c, 0) + s.text[s.cursor..] == s.text;
    } else {
      InsertedTimes(s, c, n - 1);
      InsertBehind(s.text[..s.cursor], Many(c, n - 1), s.text[s.cursor..], c);
    }
  }

  /** Enter types a newline and Tab four spaces, and one undo takes either back; other keys only move the cursor. */
  lemma SingleKeys(s: State, to: nat)
    requires Inv(s)
    ensures var at, text := s.now.cursor, s.now.text;
            && (|text| + 1 <= CAPACITY ==> Press(s, Enter).now == Snapshot(text[..at] + [10] + text[at..], at + 1))
            && (|text| + 4 <= CAPACITY ==> Press(s, Tab).now == Snapshot(text[..at] + [32, 32, 32, 32] + text[at..], at + 4))
            && Undo(Press(s, Enter)).now == s.now && Undo(Press(s, Tab)).now == s.now
    ensures Press(s, Move(to)).now.text == s.now.text && Press(s, Move(to)).now.cursor <= |s.now.text|
    ensures to <= |s.now.text| ==> Press(s, Move(to)).now.cursor == to
    ensures Press(s, Move(to)).undo == s.undo && Press(s, Move(to)).redo == s.redo && Press(s, Move(to)).group == NoGroup
  {
    if |s.now.text| + 1 <= CAPACITY {
      InsertedTimes(s.now, NEWLINE, 1);
      assert Many(NEWLINE, 1) == Many(NEWLINE, 0) + [10] == [10];
    }
    if |s.now.text| + 4 <= CAPACITY {
      InsertedTimes(s.now, SPACE, 4);
      assert Many(SPACE, 2) == Many(SPACE, 1) + [32] && Many(SPACE, 3) == Many(SPACE, 2) + [32];
      assert Many(SPACE, 4) == [32, 32, 32, 32];
    }
  }

  /** In every editing run, neither ring forgets anything during an undo or a redo. */
  lemma NothingForgotten(text: seq<Codepoint>, keys: seq<Key>)
    requires |text| <= CAPACITY
    ensures var s := Run(Opened(text), keys);
            && (s.undo != [] ==> Undo(s).redo == s.redo + [s.now])
            && (s.redo != [] ==> Redo(s).undo == s.undo + [s.now])
  {
  }

  // ----------------------------------------------------------------
  // Undo and redo walk along one fixed timeline
  // ----------------------------------------------------------------

  function Reversed<T>(s: seq<T>): (r: seq<T>)
    ensures |r| == |s|
  {
    if s == [] then [] else Reversed(s[1..]) + [s[0]]
  }

  /** Everything reachable by undo and redo, oldest first. */
  function Timeline(s: State): (t: seq<Snapshot>)
    ensures |t| == |s.undo| + 1 + |s.redo|
  {
    s.undo + [s.now] + Reversed(s.redo)
  }

  lemma {:induction false} ReversedPush<T>(s: seq<T>, x: T)
    ensures Reversed(s + [x]) == [x] + Reversed(s)
  {
    if s != [] {
      assert (s + [x])[1..] == s[1..] + [x];
      ReversedPush(s[1..], x);
    } else {
      assert s + [x] == [x];
    }
  }

  lemma {:induction false} ReversedAgain<T>(s: seq<T>)
    ensures Reversed(Reversed(s)) == s
  {
    if s != [] {
      ReversedAgain(s[1..]);
      ReversedPush(Reversed(s[1..]), s[0]);
    }
  }

  /** The two stacks and the current text that sit at place i of a timeline. */
  function Place(t: seq<Snapshot>, i: nat, group: Group): State
    requires i < |t|
  {
    State(t[i], t[..i], Reversed(t[i + 1..]), group)
  }

  lemma PlaceOf(s: State)
    ensures s == Place(Timeline(s), |s.undo|, s.group)
  {
    var t, i := Timeline(s), |s.undo|;
    assert t[..i] == s.undo && t[i + 1..] == Reversed(s.redo);
    ReversedAgain(s.redo);
  }

  lemma UndoStays(s: State)
    requires Inv(s) && s.undo != []
    ensures Timeline(Undo(s)) == Timeline(s) && |Undo(s).undo| == |s.undo| - 1
  {
    var n := |s.undo| - 1;
    ReversedPush(s.redo, s.now);
    assert s.undo == s.undo[..n] + [s.undo[n]];
  }

  lemma RedoStays(s: State)
    requires Inv(s) && s.redo != []
    ensures Timeline(Redo(s)) == Timeline(s) && |Redo(s).undo| == |s.undo| + 1
  {
    var n := |s.redo| - 1;
    assert s.redo == s.redo[..n] + [s.redo[n]];
    ReversedPush(s.redo[..n], s.redo[n]);
  }

  predicate Walks(keys: seq<Key>) {
    forall i :: 0 <= i < |keys| ==> keys[i] == UndoKey || keys[i] == RedoKey
  }

  /** Where one undo or redo leads on a timeline whose last place is `last`. */
  function NextPlace(place: nat, last: nat, key: Key): (r: nat)
    requires place <= last
    ensures r <= last
  {
    if key == UndoKey then (if place == 0 then 0 else place - 1)
    else (if place == last then last else place + 1)
  }

  function Walk(place: nat, last: nat, keys: seq<Key>): (r: nat)
    requires place <= last
    ensures r <= last
    decreases |keys|
  {
    if keys == [] then place else Walk(NextPlace(place, last, keys[0]), last, keys[1..])
  }

  lemma WalkStep(s: State, key: Key)
    requires Inv(s) && key in {UndoKey, RedoKey}
    ensures var r := Press(s, key);
            && Inv(r) && Timeline(r) == Timeline(s)
            && |r.undo| == NextPlace(|s.undo|, |s.undo| + |s.redo|, key)
            && |r.undo| + |r.redo| == |s.undo| + |s.redo|
  {
    PressInv(s, key);
    if key == UndoKey && s.undo != [] {
      UndoStays(s);
    } else if key == RedoKey && s.redo != [] {
      RedoStays(s);
    }
    assert |Timeline(Press(s, key))| == |Timeline(s)|;
  }

  /** Any run of undos and redos only moves along the timeline: text, cursor and both stacks follow from the place. */
  lemma {:induction false} WalkLaw(s: State, keys: seq<Key>)
    requires Inv(s) && Walks(keys)
    ensures var r := Run(s, keys);
            && Timeline(r) == Timeline(s)
            && |r.undo| == Walk(|s.undo|, |s.undo| + |s.redo|, keys)
            && r == Place(Timeline(s), |r.undo|, r.group)
    decreases |keys|
  {
    if keys == [] {
      PlaceOf(s);
    } else {
      WalkStep(s, keys[0]);
      WalkLaw(Press(s, keys[0]), keys[1..]);
    }
  }

  function Times(k: nat, key: Key): seq<Key> {
    if k == 0 then [] else [key] + Times(k - 1, key)
  }

  /** Where k undos or k redos lead. */
  function Jump(place: nat, last: nat, key: Key, k: nat): (r: nat)
    requires place <= last
    ensures r <= last
  {
    if key == UndoKey then (if k <= place then place - k else 0)
    else (if place + k <= last then place + k else last)
  }

  lemma {:induction false} TimesWalk(k: nat, key: Key, rest: seq<Key>, place: nat, last: nat)
    requires place <= last && key in {UndoKey, RedoKey} && Walks(rest)
    ensures Walks(Times(k, key) + rest)
    ensures Walk(place, last, Times(k, key) + rest) == Walk(Jump(place, last, key, k), last, rest)
  {
    if k == 0 {
      assert Times(0, key) + rest == rest;
    } else {
      var more := Times(k - 1, key) + rest;
      assert Times(k, key) + rest == [key] + more;
      TimesWalk(k - 1, key, rest, NextPlace(place, last, key), last);
      WalkOnce(place, last, key, more);
    }
  }

  lemma {:induction false} WalkOnce(place: nat, last: nat, key: Key, keys: seq<Key>)
    requires place <= last && key in {UndoKey, RedoKey} && Walks(keys)
    ensures Walks([key] + keys) && Walk(place, last, [key] + keys) == Walk(NextPlace(place, last, key), last, keys)
  {
    assert ([key] + keys)[1..] == keys;
  }

  function ThereAndBack(k: nat, key: Key, back: Key): seq<Key> {
    Times(k, key) + Times(k, back)
  }

  lemma JumpTwice(k: nat, key: Key, back: Key, place: nat, last: nat)
    requires place <= last && key in {UndoKey, RedoKey} && back in {UndoKey, RedoKey}
    ensures Walks(ThereAndBack(k, key, back))
    ensures Walk(place, last, ThereAndBack(k, key, back)) == Jump(Jump(place, last, key, k), last, back, k)
  {
    assert Times(k, back) + [] == Times(k, back);
    TimesWalk(k, back, [], Jump(place, last, key, k), last);
    TimesWalk(k, key, Times(k, back), place, last);
  }

  /** Text, cursor and both stacks; the open group is not part of it. */
  predicate SameView(s: State, t: State) {
    s.now == t.now && s.undo == t.undo && s.redo == t.redo
  }

  lemma SameViewIff(s: State, t: State)
    requires Timeline(s) == Timeline(t)
    ensures SameView(s, t) <==> |s.undo| == |t.undo|
  {
    PlaceOf(s);
    PlaceOf(t);
  }

  lemma BackWhereItWas(s: State, keys: seq<Key>)
    requires Inv(s) && Walks(keys)
    ensures SameView(Run(s, keys), s) <==> Walk(|s.undo|, |s.undo| + |s.redo|, keys) == |s.undo|
  {
    WalkLaw(s, keys);
    SameViewIff(Run(s, keys), s);
  }

  /**
    k undos and then k redos restore text, cursor and both stacks exactly when there were
    k entries to undo, or nothing to redo beforehand.
   */
  lemma UndoThenRedo(s: State, k: nat, keys: seq<Key>)
    requires Inv(s) && keys == ThereAndBack(k, UndoKey, RedoKey)
    ensures SameView(Run(s, keys), s) <==> k <= |s.undo| || s.redo == []
  {
    JumpTwice(k, UndoKey, RedoKey, |s.undo|, |s.undo| + |s.redo|);
    BackWhereItWas(s, keys);
  }

  /** With something to redo and nothing to undo, one undo and one redo do not lead back: the redo is not undone. */
  lemma UndoRedoCounterexample()
    ensures var s := Run(Opened([]), [Type(65), UndoKey]); !SameView(Run(s, ThereAndBack(1, UndoKey, RedoKey)), s)
  {
    var keys := [Type(65), UndoKey];
    assert keys[1..] == [UndoKey] && keys[1..][1..] == [];
    var s := Run(Opened([]), keys);
    assert s == Undo(Press(Opened([]), Type(65)));
    UndoThenRedo(s, 1, ThereAndBack(1, UndoKey, RedoKey));
  }

  /** The same with undo and redo exchanged. */
  lemma RedoThenUndo(s: State, k: nat, keys: seq<Key>)
    requires Inv(s) && keys == ThereAndBack(k, RedoKey, UndoKey)
    ensures SameView(Run(s, keys), s) <==> k <= |s.redo| || s.undo == []
  {
    JumpTwice(k, RedoKey, UndoKey, |s.undo|, |s.undo| + |s.redo|);
    BackWhereItWas(s, keys);
  }

  // ----------------------------------------------------------------
  // Grouping
  // ----------------------------------------------------------------

  /** The group a key belongs to; such keys pressed in a row are undone together. */
  function GroupOf(k: Key): Group {
    match k
    case Type(_) => InsertGroup
    case Erase => BackspaceGroup
    case EraseNext => DeleteGroup
    case _ => NoGroup
  }

  ghost predicate OneGroup(keys: seq<Key>, g: Group) {
    forall i :: 0 <= i < |keys| ==> GroupOf(keys[i]) == g
  }

  lemma {:induction false} GroupRun(s: State, keys: seq<Key>, g: Group)
    requires Inv(s) && g != NoGroup && s.group == g && OneGroup(keys, g)
    ensures var r := Run(s, keys); r.undo == s.undo && r.redo == [] && r.group == g
    decreases |keys|
  {
    if keys != [] {
      PressInv(s, keys[0]);
      GroupRun(Press(s, keys[0]), keys[1..], g);
    }
  }

  /**
    However many characters are typed (or erased) in a row, one undo brings back the text
    and cursor from before the first of them, and one redo the result.
   */
  lemma OneUndoPerGroup(s: State, keys: seq<Key>, g: Group)
    requires Inv(s) && g != NoGroup && s.group != g && keys != [] && OneGroup(keys, g)
    ensures var r := Run(s, keys);
            && Undo(r).now == s.now
            && Undo(r).undo == (if |s.undo| < DEPTH then s.undo else s.undo[1..])
            && SameView(Redo(Undo(r)), r)
  {
    PressInv(s, keys[0]);
    var t := Press(s, keys[0]);
    GroupRun(t, keys[1..], g);
    UndoOfPush(Run(s, keys), s.undo, s.now);
  }

  lemma UndoOfPush(r: State, undo: seq<Snapshot>, before: Snapshot)
    requires Inv(r) && |undo| <= DEPTH && r.undo == Push(undo, before) && r.redo == []
    ensures Undo(r).now == before && Undo(r).undo == (if |undo| < DEPTH then undo else undo[1..])
    ensures SameView(Redo(Undo(r)), r)
  {
  }
}
