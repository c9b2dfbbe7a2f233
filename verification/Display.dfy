/**
  The display stack (source/display/rootdisplay.c over rootdisplay_legacy_impl.c): drawing
  goes to a cached shadow framebuffer, a software mouse cursor is painted over it, and the
  damaged rectangle is copied to the device when no update is open.

  `canvas` is the screen a cursorless display would have. Drawing is stated on the canvas
  alone; the invariant says what the shadow, the saved background and the device hold.
 */
module Display {
  import opened Basics
  import opened Pictures
  import opened Raster

  /** The place of a cursor pixel in the saved background. */
  function Slot(lx: int, ly: int): int {
    ly * CURSOR_WIDTH + lx
  }

  lemma SlotInjective(lx: int, ly: int, l: int, m: int)
    requires 0 <= lx < CURSOR_WIDTH && 0 <= l < CURSOR_WIDTH && Slot(l, m) == Slot(lx, ly)
    ensures l == lx && m == ly
  {
  }

  /** A public call: drawing, or something that must not be visible in what was drawn. */
  datatype Event = Drawing(call: Call) | Begin | End | ShowCursor(on: bool) | MoveCursor(x: int, y: int)

  /** The arguments of a call fit the source's 32-bit parameters. */
  predicate Representable(call: Call) {
    match call
    case PutPixel(x, y, _) => x < TWO32 && y < TWO32
    case FillRect(x, y, w, h, _) => x < TWO32 && y < TWO32 && w < TWO32 && h < TWO32
    case InvertRect(x, y, w, h) => x < TWO32 && y < TWO32 && w < TWO32 && h < TWO32
    case DrawMono(x, y, w, h, _) => x < TWO32 && y < TWO32 && w < TWO32 && h < TWO32
    case ScrollUp(rows, _) => rows < TWO32
    case ShiftVertical(y, h, _, _) => y < TWO32 && h < TWO32
    case Clear(_) => true
  }

  ghost predicate AllRepresentable(events: seq<Event>) {
    forall i :: 0 <= i < |events| && events[i].Drawing? ==> Representable(events[i].call)
  }

  /** The drawing calls of a run, without the updates and the cursor. */
  function Drawings(events: seq<Event>): seq<Call> {
    if events == [] then [] else
      Drawings(events[..|events| - 1])
      + (match events[|events| - 1] case Drawing(call) => [call] case _ => [])
  }

  predicate WholeScreen(e: Event) {
    e.Drawing? && (e.call.Clear? || e.call.ScrollUp?)
  }

  class Screen {
    const width: nat
    const height: nat
    const look: Look
    const shadow: Buffer           // framebuffer
    const device: Buffer           // rootdisplay_physical_framebuffer
    const background: array<Color> // cursor_background
    var depth: nat                 // update_depth
    var cursorEnabled: bool
    var cursorDrawn: bool
    var cursor: Cursor
    var dirty: bool
    var damage: Rect
    ghost var canvas: Picture
    ghost var synced: bool         // the whole screen has been damaged at least once

    ghost predicate Shape() {
      && 0 < width < 0x8000_0000 && 0 < height < 0x8000_0000
      && shadow.Length0 == height && shadow.Length1 == width
      && device.Length0 == height && device.Length1 == width
      && shadow != device && background.Length == CURSOR_WIDTH * CURSOR_HEIGHT
    }

    predicate Visible(x: int, y: int) {
      0 <= x < width && 0 <= y < height
    }

    /** The saved background, packed, is the canvas under the cursor. */
    ghost predicate Saved()
      requires Shape()
      reads this`canvas, this`cursor, background
    {
      SavedUpTo(CURSOR_HEIGHT, 0)
    }

    ghost predicate SavedUpTo(y: int, x: int)
      requires Shape()
      reads this`canvas, this`cursor, background
    {
      SavedFor(canvas, y, x)
    }

    ghost predicate SavedFor(p: Picture, y: int, x: int)
      requires Shape()
      reads this`cursor, background
    {
      forall lx, ly {:trigger Slot(lx, ly)} ::
        0 <= lx < CURSOR_WIDTH && 0 <= ly < CURSOR_HEIGHT && (ly < y || (ly == y && lx < x))
        && Visible(cursor.x + lx, cursor.y + ly)
        ==> Pack(background[Slot(lx, ly)], look.channels) == p(cursor.x + lx, cursor.y + ly)
    }

    /** The shadow holds the canvas, with the cursor over it when that is drawn. */
    ghost predicate Painted()
      reads this`depth, this`cursorEnabled, this`cursorDrawn, this`cursor, this`canvas, shadow, background
    {
      && Shape() && AllInMask(canvas, look.channels) && Visible(cursor.x, cursor.y)
      && (cursorDrawn ==> depth == 0 && cursorEnabled && Saved())
      && Shows(shadow, WithCursor(canvas, cursorDrawn, cursor, look))
    }

    /** Outside the damage the device already shows the canvas with the cursor where it is enabled. */
    ghost predicate Synced()
      requires Shape()
      reads this`dirty, this`damage, this`synced, this`canvas, this`cursorEnabled, this`cursor, device
    {
      SyncedExcept(Rect(0, 0, 0, 0))
    }

    /** The same, with a rectangle whose damage is still to be recorded. */
    ghost predicate SyncedExcept(r: Rect)
      requires Shape()
      reads this`dirty, this`damage, this`synced, this`canvas, this`cursorEnabled, this`cursor, device
    {
      SyncedFor(canvas, r)
    }

    ghost predicate SyncedFor(p: Picture, r: Rect)
      requires Shape()
      reads this`dirty, this`damage, this`synced, this`cursorEnabled, this`cursor, device
    {
      && (dirty ==> OnScreen(shadow, damage))
      && (synced ==> forall x, y {:trigger device[y, x]} :: Visible(x, y) && !(dirty && In(damage, x, y)) && !In(r, x, y) ==>
                       device[y, x] == CursorAt(p, cursorEnabled, cursor, look, x, y))
    }

    /** No update is open: the cursor is drawn if enabled, and everything is on the device. */
    ghost predicate Settled()
      reads this`depth, this`cursorEnabled, this`cursorDrawn, this`dirty
    {
      depth == 0 ==> cursorDrawn == cursorEnabled && !dirty
    }

    ghost predicate Valid()
      reads this, shadow, device, background
    {
      Painted() && Synced() && Settled()
    }

    constructor (width: nat, height: nat, channels: Channels, device: Buffer)
      requires 0 < width < 0x8000_0000 && 0 < height < 0x8000_0000
      requires device.Length0 == height && device.Length1 == width
      ensures Valid() && depth == 0 && !synced && this.device == device && look == Look(channels, CURSOR_SHAPE)
      ensures this.width == width && this.height == height && fresh(shadow) && fresh(background)
      ensures canvas == ((x, y) => Pixel(0, 0, 0))
    {
      this.width, this.height, this.device := width, height, device;
      look := Look(channels, CURSOR_SHAPE);
      shadow := new Pixel[height, width]((_, _) => Pixel(0, 0, 0));
      background := new Color[CURSOR_WIDTH * CURSOR_HEIGHT](_ => 0);
      depth, cursorEnabled, cursorDrawn, cursor := 0, false, false, Cursor(0, 0);
      dirty, damage := false, Rect(0, 0, 0, 0);
      canvas, synced := (x, y) => Pixel(0, 0, 0), false;
    }

    /** Once everything has been damaged, an idle display shows its shadow on the device, pixel by pixel. */
    lemma DeviceAgrees(x: int, y: int)
      requires Valid() && depth == 0 && synced && Visible(x, y)
      ensures device[y, x] == shadow[y, x]
      ensures device[y, x] == CursorAt(canvas, cursorEnabled, cursor, look, x, y)
    {
    }

    // ----------------------------------------------------------------
    // The cursor
    // ----------------------------------------------------------------

    /** The cursor pixels restored so far: rows above y, and row y before x. */
    ghost predicate RestoredUpTo(was: Picture, y: int, x: int)
      requires Shape()
      reads this`canvas, this`cursor, shadow
    {
      forall xx, yy {:trigger shadow[yy, xx]} :: Visible(xx, yy) ==>
        shadow[yy, xx] == if Done(Box(cursor), cursor.y + y, cursor.x + x, xx, yy) then canvas(xx, yy) else was(xx, yy)
    }

    method RestoreRow(ly: int, ghost was: Picture)
      requires Shape() && Saved() && 0 <= ly < CURSOR_HEIGHT && RestoredUpTo(was, ly, 0) && Visible(cursor.x, cursor.y)
      modifies shadow
      ensures RestoredUpTo(was, ly + 1, 0)
    {
      var lx := 0;
      while lx < CURSOR_WIDTH
        invariant 0 <= lx <= CURSOR_WIDTH && RestoredUpTo(was, ly, lx)
      {
        RestorePixel(lx, ly, was);
        lx := lx + 1;
      }
    }

    method RestorePixel(lx: int, ly: int, ghost was: Picture)
      requires Shape() && Saved() && 0 <= lx < CURSOR_WIDTH && 0 <= ly < CURSOR_HEIGHT && RestoredUpTo(was, ly, lx)
      modifies shadow
      ensures RestoredUpTo(was, ly, lx + 1)
    {
      var x, y := cursor.x + lx, cursor.y + ly;
      if Visible(x, y) {
        var saved := SavedPixel(lx, ly);
        shadow[y, x] := saved;
      }
    }

    method SavedPixel(lx: int, ly: int) returns (p: Pixel)
      requires Shape() && Saved() && 0 <= lx < CURSOR_WIDTH && 0 <= ly < CURSOR_HEIGHT && Visible(cursor.x + lx, cursor.y + ly)
      ensures p == canvas(cursor.x + lx, cursor.y + ly)
    {
      ghost var c := canvas(cursor.x + lx, cursor.y + ly);
      p := Pack(background[Slot(lx, ly)], look.channels);
      assert p == c;
    }

    /** cursor_restore_background */
    method RestoreBackground()
      requires Painted() && cursorDrawn
      modifies this`cursorDrawn, shadow
      ensures Painted() && !cursorDrawn
    {
      ghost var was := WithCursor(canvas, true, cursor, look);
      var ly := 0;
      while ly < CURSOR_HEIGHT
        invariant 0 <= ly <= CURSOR_HEIGHT && RestoredUpTo(was, ly, 0)
        modifies shadow
      {
        RestoreRow(ly, was);
        ly := ly + 1;
      }
      cursorDrawn := false;
      forall xx, yy | Visible(xx, yy)
        ensures shadow[yy, xx] == WithCursor(canvas, false, cursor, look)(xx, yy)
      {
        assert shadow[yy, xx] == canvas(xx, yy);
      }
    }

    method CaptureRow(ly: int)
      requires Painted() && !cursorDrawn && 0 <= ly < CURSOR_HEIGHT && SavedUpTo(ly, 0)
      modifies background
      ensures SavedUpTo(ly + 1, 0)
    {
      var lx := 0;
      while lx < CURSOR_WIDTH
        invariant 0 <= lx <= CURSOR_WIDTH && SavedUpTo(ly, lx)
      {
        CapturePixel(lx, ly);
        lx := lx + 1;
      }
    }

    method CapturePixel(lx: int, ly: int)
      requires Painted() && !cursorDrawn && 0 <= lx < CURSOR_WIDTH && 0 <= ly < CURSOR_HEIGHT && SavedUpTo(ly, lx)
      modifies background
      ensures SavedUpTo(ly, lx + 1)
    {
      var x, y := cursor.x + lx, cursor.y + ly;
      var c := 0;
      if Visible(x, y) {
        c := RawGet(x, y);
      }
      Save(lx, ly, c);
    }

    method Save(lx: int, ly: int, c: Color)
      requires Shape() && 0 <= lx < CURSOR_WIDTH && 0 <= ly < CURSOR_HEIGHT && SavedUpTo(ly, lx)
      requires Visible(cursor.x + lx, cursor.y + ly) ==> Pack(c, look.channels) == canvas(cursor.x + lx, cursor.y + ly)
      modifies background
      ensures SavedUpTo(ly, lx + 1)
    {
      forall l, m | 0 <= l < CURSOR_WIDTH && Slot(l, m) == Slot(lx, ly)
        ensures l == lx && m == ly
      {
        SlotInjective(lx, ly, l, m);
      }
      background[Slot(lx, ly)] := c;
    }

    /** raw_get_pixel */
    method RawGet(x: int, y: int) returns (c: Color)
      requires Painted() && Visible(x, y)
      ensures Pack(c, look.channels) == CursorAt(canvas, cursorDrawn, cursor, look, x, y)
    {
      assert shadow[y, x] == CursorAt(canvas, cursorDrawn, cursor, look, x, y);
      PackUnpack(shadow[y, x], look.channels);
      c := Unpack(shadow[y, x], look.channels);
    }

    /** cursor_capture_background */
    method CaptureBackground()
      requires Painted() && !cursorDrawn
      modifies background
      ensures Painted() && Saved()
    {
      var ly := 0;
      while ly < CURSOR_HEIGHT
        invariant 0 <= ly <= CURSOR_HEIGHT && SavedUpTo(ly, 0)
      {
        CaptureRow(ly);
        ly := ly + 1;
      }
    }

    ghost predicate InkedUpTo(y: int, x: int)
      requires Shape()
      reads this`canvas, this`cursor, shadow
    {
      forall xx, yy {:trigger shadow[yy, xx]} :: Visible(xx, yy) ==>
        shadow[yy, xx] == CursorAt(canvas, Done(Box(cursor), cursor.y + y, cursor.x + x, xx, yy), cursor, look, xx, yy)
    }

    method InkRow(ly: int)
      requires Shape() && 0 <= ly < CURSOR_HEIGHT && InkedUpTo(ly, 0) && Visible(cursor.x, cursor.y)
      modifies shadow
      ensures InkedUpTo(ly + 1, 0)
    {
      var black, white := Pack(BLACK, look.channels), Pack(WHITE, look.channels);
      var lx := 0;
      while lx < CURSOR_WIDTH
        invariant 0 <= lx <= CURSOR_WIDTH && InkedUpTo(ly, lx)
      {
        InkPixel(lx, ly, black, white);
        lx := lx + 1;
      }
    }

    method InkPixel(lx: int, ly: int, black: Pixel, white: Pixel)
      requires Shape() && 0 <= lx < CURSOR_WIDTH && 0 <= ly < CURSOR_HEIGHT && InkedUpTo(ly, lx)
      requires black == Pack(BLACK, look.channels) && white == Pack(WHITE, look.channels)
      modifies shadow
      ensures InkedUpTo(ly, lx + 1)
    {
      var shape := ShapeAt(look.shape, lx, ly);
      var x, y := cursor.x + lx, cursor.y + ly;
      if shape != ' ' && Visible(x, y) {
        shadow[y, x] := if shape == 'B' then black else white;
      }
    }

    /** cursor_draw, which does nothing while an update is open */
    method DrawCursor()
      requires Painted() && !cursorDrawn && Saved()
      modifies this`cursorDrawn, shadow
      ensures Painted() && cursorDrawn == (cursorEnabled && depth == 0)
    {
      if !cursorEnabled || depth != 0 {
        return;
      }
      var ly := 0;
      while ly < CURSOR_HEIGHT
        invariant 0 <= ly <= CURSOR_HEIGHT && InkedUpTo(ly, 0)
        modifies shadow
      {
        InkRow(ly);
        ly := ly + 1;
      }
      cursorDrawn := true;
      forall xx, yy | Visible(xx, yy)
        ensures shadow[yy, xx] == WithCursor(canvas, true, cursor, look)(xx, yy)
      {
        assert shadow[yy, xx] == CursorAt(canvas, true, cursor, look, xx, yy);
      }
    }

    // ----------------------------------------------------------------
    // Updates, on the shadow only
    // ----------------------------------------------------------------

    /** legacy_rootdisplay_begin_update: the cursor leaves the shadow. */
    method Open()
      requires Painted()
      modifies this`depth, this`cursorDrawn, shadow
      ensures Painted() && !cursorDrawn && depth == old(depth) + 1 && Shows(shadow, canvas)
    {
      if depth == 0 && cursorDrawn {
        RestoreBackground();
      }
      depth := depth + 1;
      forall x, y | Visible(x, y)
        ensures shadow[y, x] == canvas(x, y)
      {
        assert shadow[y, x] == CursorAt(canvas, false, cursor, look, x, y);
      }
    }

    /** legacy_rootdisplay_end_update: the cursor comes back with the last one. */
    method Close()
      requires Painted()
      modifies this`depth, this`cursorDrawn, shadow, background
      ensures Painted() && depth == (if old(depth) == 0 then 0 else old(depth) - 1)
      ensures old(depth) > 0 && depth == 0 ==> cursorDrawn == cursorEnabled
      ensures old(depth) == 0 ==> cursorDrawn == old(cursorDrawn)
    {
      if depth == 0 {
        return;
      }
      depth := depth - 1;
      if depth == 0 && cursorEnabled {
        CaptureBackground();
        DrawCursor();
      }
    }

    // ----------------------------------------------------------------
    // Damage
    // ----------------------------------------------------------------

    /** rootdisplay_damage; arguments are u32. */
    method Damage(x: nat, y: nat, w: nat, h: nat)
      requires Painted() && x < TWO32 && y < TWO32 && w < TWO32 && h < TWO32
      requires SyncedExcept(Clip(x, y, w, h, width, height))
      modifies this`dirty, this`damage, this`synced
      ensures Synced() && Covers(Clip(x, y, w, h, width, height)) && (old(dirty) ==> dirty && Within(old(damage), damage))
      ensures synced == (old(synced) || Clip(x, y, w, h, width, height) == Rect(0, 0, width, height))
    {
      if w == 0 || h == 0 || x >= width || y >= height {
        return;
      }
      ClipMeans(x, w, width);
      ClipMeans(y, h, height);
      var x1, y1 := ClipEnd(x, w, width), ClipEnd(y, h, height);
      if !dirty {
        dirty := true;
        damage := Rect(x, y, x1, y1);
      } else {
        damage := Joined(damage, Rect(x, y, x1, y1));
      }
      synced := synced || Rect(x, y, x1, y1) == Rect(0, 0, width, height);
    }

    /** Every visible point of the rectangle is damaged. */
    ghost predicate Covers(r: Rect)
      reads this`dirty, this`damage
    {
      forall x, y :: In(r, x, y) && Visible(x, y) ==> dirty && In(damage, x, y)
    }

    /** rootdisplay_flush_damage */
    method FlushDamage()
      requires Painted() && Synced() && cursorDrawn == cursorEnabled
      modifies this`dirty, this`damage, device
      ensures Painted() && Synced() && !dirty
    {
      if !dirty {
        return;
      }
      var r := damage;
      dirty, damage := false, Rect(0, 0, 0, 0);
      ghost var p := WithCursor(canvas, cursorDrawn, cursor, look);
      Flush(device, shadow, r, p);
    }

    /** rootdisplay_flush_if_idle */
    method FlushIfIdle()
      requires Painted() && Synced() && (depth == 0 ==> cursorDrawn == cursorEnabled)
      modifies this`dirty, this`damage, device
      ensures Valid()
    {
      if depth == 0 {
        FlushDamage();
      }
    }

    // ----------------------------------------------------------------
    // Drawing
    // ----------------------------------------------------------------

    /** The same picture outside the rectangle, as far as it is visible. */
    ghost predicate SameOutside(p: Picture, q: Picture, r: Rect) {
      forall x, y {:trigger q(x, y)} :: Visible(x, y) && !In(r, x, y) ==> q(x, y) == p(x, y)
    }

    /** What drawing may change: nothing but the canvas, and what is shown of it. */
    twostate predicate OnlyDrew()
      reads this
    {
      depth == old(depth) && cursorEnabled == old(cursorEnabled) && cursor == old(cursor) && (old(synced) ==> synced)
    }

    ghost predicate CursorSettled()
      reads this`depth, this`cursorEnabled, this`cursorDrawn
    {
      depth == 0 ==> cursorDrawn == cursorEnabled
    }

    /** The shadow shows p now, and differs only where damage is recorded. */
    ghost method Commit(p: Picture, r: Rect)
      requires Shape() && Visible(cursor.x, cursor.y) && Synced() && !cursorDrawn && Shows(shadow, p) && AllInMask(p, look.channels)
      requires SameOutside(canvas, p, r) && Covers(r)
      modifies this`canvas
      ensures Painted() && Synced() && canvas == p
    {
      canvas := p;
    }

    /** begin, the fill loops, end */
    method PaintRect(r: Rect, c: Pixel)
      requires Painted() && Synced() && CursorSettled() && OnScreen(shadow, r) && Covers(r) && InMask(c, look.channels)
      modifies this`depth, this`cursorDrawn, this`canvas, shadow, background
      ensures Painted() && Synced() && CursorSettled() && depth == old(depth) && canvas == Filled(old(canvas), r, c)
    {
      Open();
      Fill(shadow, r, c, canvas);
      FilledInMask(canvas, r, c, look.channels);
      Commit(Filled(canvas, r, c), r);
      Close();
    }

    method PaintInverse(r: Rect)
      requires Painted() && Synced() && CursorSettled() && OnScreen(shadow, r) && Covers(r)
      modifies this`depth, this`cursorDrawn, this`canvas, shadow, background
      ensures Painted() && Synced() && CursorSettled() && depth == old(depth) && canvas == InvertedIn(old(canvas), r, look.channels)
    {
      Open();
      Invert(shadow, r, look.channels, canvas);
      InvertedInMask(canvas, r, look.channels);
      Commit(InvertedIn(canvas, r, look.channels), r);
      Close();
    }

    method PaintBitmap(r: Rect, b: Stencil)
      requires Painted() && Synced() && CursorSettled() && OnScreen(shadow, r) && Covers(r)
      modifies this`depth, this`cursorDrawn, this`canvas, shadow, background
      ensures Painted() && Synced() && CursorSettled() && depth == old(depth) && canvas == Stamped(old(canvas), r, b, look.channels)
    {
      Open();
      DrawBitmap(shadow, r, b, look.channels, canvas);
      StampedInMask(canvas, r, b, look.channels);
      Commit(Stamped(canvas, r, b, look.channels), r);
      Close();
    }

    method PaintShift(top: int, bottom: int, delta: int, c: Pixel)
      requires Painted() && Synced() && CursorSettled() && InMask(c, look.channels) && Covers(Rect(0, top, width, bottom))
      requires 0 <= top <= bottom <= height && delta != 0 && -(bottom - top) < delta < bottom - top
      modifies this`depth, this`cursorDrawn, this`canvas, shadow, background
      ensures Painted() && Synced() && CursorSettled() && depth == old(depth)
      ensures canvas == Shifted(old(canvas), top, bottom, delta, c)
    {
      Open();
      Shift(shadow, top, bottom, delta, c, canvas);
      ShiftedInMask(canvas, top, bottom, delta, c, look.channels);
      Commit(Shifted(canvas, top, bottom, delta, c), Rect(0, top, width, bottom));
      Close();
    }

    /** The canvas after this call. */
    ghost function After(call: Call): Picture
      reads this`canvas
    {
      Draw(canvas, call, width, height, look.channels)
    }

    predicate Word(n: nat) {
      n < TWO32
    }

    /** legacy_rootdisplay_fill_rect */
    method LegacyFill(x: nat, y: nat, w: nat, h: nat, color: Color)
      requires Painted() && Synced() && CursorSettled() && Word(w) && Word(h) && Covers(Clip(x, y, w, h, width, height))
      modifies this`depth, this`cursorDrawn, this`canvas, shadow, background
      ensures Painted() && Synced() && CursorSettled() && depth == old(depth)
      ensures canvas == old(After(FillRect(x, y, w, h, color)))
    {
      if Nothing(x, y, w, h, width, height) {
        return;
      }
      ClipMeans(x, w, width);
      ClipMeans(y, h, height);
      PackInMask(color, look.channels);
      PaintRect(Clip(x, y, w, h, width, height), Pack(color, look.channels));
    }

    method FillRectangle(x: nat, y: nat, w: nat, h: nat, color: Color)
      requires Valid() && Word(x) && Word(y) && Word(w) && Word(h)
      modifies this, shadow, device, background
      ensures Valid() && OnlyDrew() && canvas == old(After(FillRect(x, y, w, h, color)))
    {
      Damage(x, y, w, h);
      LegacyFill(x, y, w, h, color);
      FlushIfIdle();
    }

    method InvertRectangle(x: nat, y: nat, w: nat, h: nat)
      requires Valid() && Word(x) && Word(y) && Word(w) && Word(h)
      modifies this, shadow, device, background
      ensures Valid() && OnlyDrew() && canvas == old(After(InvertRect(x, y, w, h)))
    {
      Damage(x, y, w, h);
      if !Nothing(x, y, w, h, width, height) {
        ClipMeans(x, w, width);
        ClipMeans(y, h, height);
        PaintInverse(Clip(x, y, w, h, width, height));
      }
      FlushIfIdle();
    }

    method DrawMonoBitmap(x: nat, y: nat, w: nat, h: nat, b: Bitmap)
      requires Valid() && Word(x) && Word(y) && Word(w) && Word(h)
      modifies this, shadow, device, background
      ensures Valid() && OnlyDrew() && canvas == old(After(DrawMono(x, y, w, h, b)))
    {
      Damage(x, y, w, h);
      if !Nothing(x, y, w, h, width, height) && b.stride != 0 {
        ClipMeans(x, w, width);
        ClipMeans(y, h, height);
        PaintBitmap(Clip(x, y, w, h, width, height), StencilOf(b));
      }
      FlushIfIdle();
    }

    /** A call over the whole screen: from here on the device is known. */
    method DamageAll()
      requires Valid()
      modifies this`dirty, this`damage, this`synced
      ensures Painted() && Synced() && CursorSettled() && synced && Covers(Full(width, height))
    {
      ClipMeans(0, width, width);
      ClipMeans(0, height, height);
      Damage(0, 0, width, height);
    }

    method ClearScreen(color: Color)
      requires Valid()
      modifies this, shadow, device, background
      ensures Valid() && OnlyDrew() && synced && canvas == old(After(Clear(color)))
    {
      DamageAll();
      PackInMask(color, look.channels);
      PaintRect(Full(width, height), Pack(color, look.channels));
      FlushIfIdle();
    }

    /** legacy_rootdisplay_scroll_up */
    method LegacyScroll(rows: nat, color: Color)
      requires Painted() && Synced() && CursorSettled() && Covers(Full(width, height))
      modifies this`depth, this`cursorDrawn, this`canvas, shadow, background
      ensures Painted() && Synced() && CursorSettled() && depth == old(depth)
      ensures canvas == old(After(ScrollUp(rows, color)))
    {
      if rows == 0 {
        return;
      }
      PackInMask(color, look.channels);
      if rows >= height {
        PaintRect(Full(width, height), Pack(color, look.channels));
      } else {
        PaintShift(0, height, -(rows as int), Pack(color, look.channels));
      }
    }

    method ScrollScreen(rows: nat, color: Color)
      requires Valid() && Word(rows)
      modifies this, shadow, device, background
      ensures Valid() && OnlyDrew() && synced && canvas == old(After(ScrollUp(rows, color)))
    {
      DamageAll();
      LegacyScroll(rows, color);
      FlushIfIdle();
    }

    /** legacy_rootdisplay_shift_vertical */
    method LegacyShift(y: nat, h: nat, delta: int, color: Color)
      requires Painted() && Synced() && CursorSettled() && Word(h) && Covers(Clip(0, y, width, h, width, height))
      modifies this`depth, this`cursorDrawn, this`canvas, shadow, background
      ensures Painted() && Synced() && CursorSettled() && depth == old(depth)
      ensures canvas == old(After(ShiftVertical(y, h, delta, color)))
    {
      if h == 0 || delta == 0 || y >= height {
        return;
      }
      ClipMeans(0, width, width);
      ClipMeans(y, h, height);
      PackInMask(color, look.channels);
      var bottom := Bottom(y, h, height);
      if delta >= bottom - y || -delta >= bottom - y {
        PaintRect(Rect(0, y, width, bottom), Pack(color, look.channels));
      } else {
        PaintShift(y, bottom, delta, Pack(color, look.channels));
      }
    }

    method ShiftRegion(y: nat, h: nat, delta: int, color: Color)
      requires Valid() && Word(y) && Word(h)
      modifies this, shadow, device, background
      ensures Valid() && OnlyDrew() && canvas == old(After(ShiftVertical(y, h, delta, color)))
    {
      Damage(0, y, width, h);
      LegacyShift(y, h, delta, color);
      FlushIfIdle();
    }

    // ----------------------------------------------------------------
    // Single pixels
    // ----------------------------------------------------------------

    /** legacy_rootdisplay_put_pixel on a visible point: under the cursor the saved background takes the colour. */
    method LegacyPut(x: nat, y: nat, color: Color)
      requires Painted() && Synced() && Visible(x, y) && Covers(Rect(x, y, x + 1, y + 1))
      modifies this`canvas, shadow, background
      ensures Painted() && Synced()
      ensures canvas == Filled(old(canvas), Rect(x, y, x + 1, y + 1), Pack(color, look.channels))
    {
      var r, c := Rect(x, y, x + 1, y + 1), Pack(color, look.channels);
      PackInMask(color, look.channels);
      FilledInMask(canvas, r, c, look.channels);
      if cursorDrawn && In(Box(cursor), x, y) {
        PutThrough(x, y, c);
        PutSaved(x, y, color, c);
      } else {
        shadow[y, x] := c;
      }
      Recolour(x, y, c);
    }

    /** cursor_background[index] = color */
    method PutSaved(x: nat, y: nat, color: Color, ghost c: Pixel)
      requires Shape() && Saved() && In(Box(cursor), x, y) && c == Pack(color, look.channels)
      modifies background
      ensures SavedAs(x, y, c)
    {
      var lx, ly := x - cursor.x, y - cursor.y;
      forall l, m | 0 <= l < CURSOR_WIDTH && Slot(l, m) == Slot(lx, ly)
        ensures l == lx && m == ly
      {
        SlotInjective(lx, ly, l, m);
      }
      background[Slot(lx, ly)] := color;
    }

    /** The pixel itself is stored where the cursor is transparent. */
    method PutThrough(x: nat, y: nat, c: Pixel)
      requires Painted() && Visible(x, y) && cursorDrawn && In(Box(cursor), x, y)
      modifies shadow
      ensures StoredAt(x, y, c)
    {
      if ShapeAt(look.shape, x - cursor.x, y - cursor.y) == ' ' {
        shadow[y, x] := c;
      }
    }

    /** The shadow as it should be once the canvas has c at (x, y). */
    ghost predicate StoredAt(x: int, y: int, c: Pixel)
      requires Shape()
      reads this`canvas, this`cursor, this`cursorDrawn, shadow
    {
      forall xx, yy {:trigger shadow[yy, xx]} :: Visible(xx, yy) ==>
        shadow[yy, xx] == if cursorDrawn && Inked(cursor, look, xx, yy) then Ink(cursor, look, xx, yy)
                          else if xx == x && yy == y then c else canvas(xx, yy)
    }

    /** The saved background as it should be once the canvas has c at (x, y). */
    ghost predicate SavedAs(x: int, y: int, c: Pixel)
      requires Shape()
      reads this`canvas, this`cursor, background
    {
      forall lx, ly {:trigger Slot(lx, ly)} ::
        0 <= lx < CURSOR_WIDTH && 0 <= ly < CURSOR_HEIGHT && Visible(cursor.x + lx, cursor.y + ly)
        ==> Pack(background[Slot(lx, ly)], look.channels)
            == if cursor.x + lx == x && cursor.y + ly == y then c else canvas(cursor.x + lx, cursor.y + ly)
    }

    ghost method Recolour(x: int, y: int, c: Pixel)
      requires Shape() && Visible(cursor.x, cursor.y) && Synced() && Covers(Rect(x, y, x + 1, y + 1))
      requires cursorDrawn ==> depth == 0 && cursorEnabled && SavedAs(x, y, c)
      requires StoredAt(x, y, c) && AllInMask(Filled(canvas, Rect(x, y, x + 1, y + 1), c), look.channels)
      modifies this`canvas
      ensures Painted() && Synced() && canvas == Filled(old(canvas), Rect(x, y, x + 1, y + 1), c)
    {
      ghost var now := Filled(canvas, Rect(x, y, x + 1, y + 1), c);
      forall xx, yy
        ensures now(xx, yy) == if xx == x && yy == y then c else canvas(xx, yy)
      {
        assert now(xx, yy) == FillAt(canvas, Rect(x, y, x + 1, y + 1), c, xx, yy);
      }
      RecolourShows(x, y, c, now);
      RecolourSynced(x, y, c, now);
      if cursorDrawn {
        RecolourSaved(x, y, c, now);
      }
      canvas := now;
    }

    lemma RecolourSaved(x: int, y: int, c: Pixel, now: Picture)
      requires Shape() && SavedAs(x, y, c)
      requires forall xx, yy :: now(xx, yy) == if xx == x && yy == y then c else canvas(xx, yy)
      ensures SavedFor(now, CURSOR_HEIGHT, 0)
    {
    }

    lemma RecolourSynced(x: int, y: int, c: Pixel, now: Picture)
      requires Shape() && Synced() && Covers(Rect(x, y, x + 1, y + 1))
      requires forall xx, yy :: now(xx, yy) == if xx == x && yy == y then c else canvas(xx, yy)
      ensures SyncedFor(now, Rect(0, 0, 0, 0))
    {
    }

    lemma RecolourShows(x: int, y: int, c: Pixel, now: Picture)
      requires Shape() && StoredAt(x, y, c)
      requires forall xx, yy :: now(xx, yy) == if xx == x && yy == y then c else canvas(xx, yy)
      ensures Shows(shadow, WithCursor(now, cursorDrawn, cursor, look))
    {
      forall xx, yy | Visible(xx, yy)
        ensures shadow[yy, xx] == WithCursor(now, cursorDrawn, cursor, look)(xx, yy)
      {
        assert shadow[yy, xx] == CursorAt(now, cursorDrawn, cursor, look, xx, yy);
      }
    }

    method Put(x: nat, y: nat, color: Color)
      requires Valid() && Word(x) && Word(y)
      modifies this, shadow, device, background
      ensures Valid() && OnlyDrew() && canvas == old(After(PutPixel(x, y, color)))
    {
      Damage(x, y, 1, 1);
      if x < width && y < height {
        ClipMeans(x, 1, width);
        ClipMeans(y, 1, height);
        LegacyPut(x, y, color);
      }
      FlushIfIdle();
    }

    /** rootdisplay_get_pixel: the cursor cannot be seen through it. */
    method GetPixel(x: nat, y: nat) returns (color: Color)
      requires Valid()
      ensures Visible(x, y) ==> Pack(color, look.channels) == canvas(x, y)
      ensures !Visible(x, y) ==> color == 0
    {
      if x >= width || y >= height {
        return 0;
      }
      if cursorDrawn && In(Box(cursor), x, y) {
        return background[Slot(x - cursor.x, y - cursor.y)];
      }
      color := RawGet(x, y);
    }

    // ----------------------------------------------------------------
    // Updates and cursor
    // ----------------------------------------------------------------

    method BeginUpdate()
      requires Valid()
      modifies this`depth, this`cursorDrawn, shadow
      ensures Valid() && depth == old(depth) + 1
    {
      Open();
    }

    method EndUpdate()
      requires Valid()
      modifies this, shadow, device, background
      ensures Valid() && depth == (if old(depth) == 0 then 0 else old(depth) - 1)
      ensures canvas == old(canvas) && cursor == old(cursor) && cursorEnabled == old(cursorEnabled) && synced == old(synced)
    {
      Close();
      FlushIfIdle();
    }

    /** The cursor's rectangle on the screen. */
    lemma BoxOnScreen()
      requires Shape() && Visible(cursor.x, cursor.y)
      ensures var r := Clip(cursor.x, cursor.y, CURSOR_WIDTH, CURSOR_HEIGHT, width, height);
              forall x, y :: Visible(x, y) ==> (In(r, x, y) <==> In(Box(cursor), x, y))
    {
      ClipMeans(cursor.x, CURSOR_WIDTH, width);
      ClipMeans(cursor.y, CURSOR_HEIGHT, height);
    }

    method DamageCursor()
      requires Painted() && SyncedExcept(Box(cursor))
      modifies this`dirty, this`damage, this`synced
      ensures Synced() && Covers(Box(cursor)) && (old(synced) ==> synced)
      ensures old(dirty) ==> dirty && Within(old(damage), damage)
    {
      BoxOnScreen();
      Damage(cursor.x, cursor.y, CURSOR_WIDTH, CURSOR_HEIGHT);
    }

    /** legacy_rootdisplay_cursor_enable */
    method LegacyCursorEnable(enabled: bool)
      requires Painted() && Synced() && CursorSettled() && Covers(Box(cursor))
      modifies this`cursorEnabled, this`cursorDrawn, shadow, background
      ensures Painted() && Synced() && CursorSettled() && cursorEnabled == enabled
    {
      if !enabled {
        if cursorDrawn {
          RestoreBackground();
        }
        cursorEnabled := false;
        return;
      }
      if cursorEnabled {
        return;
      }
      cursorEnabled := true;
      if depth == 0 {
        CaptureBackground();
        DrawCursor();
      }
    }

    method CursorEnable(enabled: bool)
      requires Valid()
      modifies this, shadow, device, background
      ensures Valid() && cursorEnabled == enabled
      ensures canvas == old(canvas) && cursor == old(cursor) && depth == old(depth) && (old(synced) ==> synced)
    {
      DamageCursor();
      LegacyCursorEnable(enabled);
      DamageCursor();
      FlushIfIdle();
    }

    function Clamp(v: int, limit: nat): int
      requires limit > 0
    {
      if v < 0 then 0 else if v >= limit then limit - 1 else v
    }

    /** legacy_rootdisplay_cursor_move */
    method LegacyCursorMove(x: int, y: int)
      requires Painted() && Synced() && CursorSettled() && Covers(Box(cursor))
      modifies this`cursor, this`cursorDrawn, shadow, background
      ensures Painted() && CursorSettled() && SyncedExcept(Box(cursor))
      ensures cursor == Cursor(Clamp(x, width), Clamp(y, height))
    {
      var c := Cursor(Clamp(x, width), Clamp(y, height));
      if c == cursor {
        return;
      }
      if cursorDrawn {
        RestoreBackground();
      }
      MoveTo(c);
      if cursorEnabled && depth == 0 {
        CaptureBackground();
        DrawCursor();
      }
    }

    method MoveTo(c: Cursor)
      requires Painted() && Synced() && !cursorDrawn && Covers(Box(cursor)) && Visible(c.x, c.y)
      modifies this`cursor
      ensures Painted() && SyncedExcept(Box(cursor)) && cursor == c
    {
      ghost var was := cursor;
      cursor := c;
      forall xx, yy | Visible(xx, yy)
        ensures shadow[yy, xx] == WithCursor(canvas, false, cursor, look)(xx, yy)
      {
        assert shadow[yy, xx] == WithCursor(canvas, false, was, look)(xx, yy);
        assert shadow[yy, xx] == CursorAt(canvas, false, was, look, xx, yy) == CursorAt(canvas, false, c, look, xx, yy);
      }
    }

    method CursorMove(x: int, y: int)
      requires Valid()
      modifies this, shadow, device, background
      ensures Valid() && cursor == Cursor(Clamp(x, width), Clamp(y, height))
      ensures canvas == old(canvas) && cursorEnabled == old(cursorEnabled) && depth == old(depth) && (old(synced) ==> synced)
    {
      DamageCursor();
      LegacyCursorMove(x, y);
      DamageCursor();
      FlushIfIdle();
    }

    // ----------------------------------------------------------------
    // Runs
    // ----------------------------------------------------------------

    method DrawCall(call: Call)
      requires Valid() && Representable(call)
      modifies this, shadow, device, background
      ensures Valid() && OnlyDrew() && canvas == old(After(call)) && (WholeScreen(Drawing(call)) ==> synced)
    {
      match call
      case PutPixel(x, y, color) => Put(x, y, color);
      case FillRect(x, y, w, h, color) => FillRectangle(x, y, w, h, color);
      case InvertRect(x, y, w, h) => InvertRectangle(x, y, w, h);
      case DrawMono(x, y, w, h, bitmap) => DrawMonoBitmap(x, y, w, h, bitmap);
      case ScrollUp(rows, color) => ScrollScreen(rows, color);
      case ShiftVertical(y, h, delta, color) => ShiftRegion(y, h, delta, color);
      case Clear(color) => ClearScreen(color);
    }

    method Perform(e: Event)
      requires Valid() && (e.Drawing? ==> Representable(e.call))
      modifies this, shadow, device, background
      ensures Valid() && (old(synced) || WholeScreen(e) ==> synced)
      ensures canvas == if e.Drawing? then old(After(e.call)) else old(canvas)
    {
      match e
      case Drawing(call) => DrawCall(call);
      case Begin => BeginUpdate();
      case End => EndUpdate();
      case ShowCursor(on) => CursorEnable(on);
      case MoveCursor(x, y) => CursorMove(x, y);
    }

    /**
      Any run of calls: the canvas, and so every GetPixel, is what the drawing calls alone
      would have made it; and once the whole screen has been drawn, an idle display has
      shadow and device in agreement (DeviceAgrees).
     */
    method Run(events: seq<Event>)
      requires Valid() && AllRepresentable(events)
      modifies this, shadow, device, background
      ensures Valid() && canvas == DrawAll(old(canvas), Drawings(events), width, height, look.channels)
      ensures (exists i :: 0 <= i < |events| && WholeScreen(events[i])) ==> synced
    {
      var i := 0;
      while i < |events|
        invariant 0 <= i <= |events| && Valid()
        invariant canvas == DrawAll(old(canvas), Drawings(events[..i]), width, height, look.channels)
        invariant (exists j :: 0 <= j < i && WholeScreen(events[j])) ==> synced
      {
        NextDrawing(old(canvas), events, i, width, height, look.channels);
        Perform(events[i]);
        i := i + 1;
      }
      assert events[..i] == events;
    }
  }

  /** A display from its start: what it then holds is what the drawing calls make of a black screen. */
  method Show(width: nat, height: nat, channels: Channels, device: Buffer, events: seq<Event>) returns (s: Screen)
    requires 0 < width < 0x8000_0000 && 0 < height < 0x8000_0000
    requires device.Length0 == height && device.Length1 == width && AllRepresentable(events)
    modifies device
    ensures fresh(s) && s.Valid() && s.device == device
    ensures s.canvas == DrawAll((x, y) => Pixel(0, 0, 0), Drawings(events), width, height, channels)
    ensures (exists i :: 0 <= i < |events| && WholeScreen(events[i])) ==> s.synced
  {
    s := new Screen(width, height, channels, device);
    s.Run(events);
  }

  lemma NextDrawing(p: Picture, events: seq<Event>, i: nat, w: nat, h: nat, k: Channels)
    requires i < |events|
    ensures var before, after := DrawAll(p, Drawings(events[..i]), w, h, k), DrawAll(p, Drawings(events[..i + 1]), w, h, k);
            after == if events[i].Drawing? then Draw(before, events[i].call, w, h, k) else before
  {
    assert events[..i + 1][..i] == events[..i];
    var calls := Drawings(events[..i]);
    if events[i].Drawing? {
      assert (calls + [events[i].call])[..|calls|] == calls;
    } else {
      assert calls + [] == calls;
    }
  }
}
