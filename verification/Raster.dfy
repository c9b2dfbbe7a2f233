/**
  The pixel loops of the display stack on a framebuffer, rows first: fills, inversion,
  bitmaps, overlapping row moves and the copy to the device. `p` is what the buffer
  showed when the loop began; y and x are how far it has come.
 */
module Raster {
  import opened Pictures

  type Buffer = array2<Pixel>   // indexed by row, then column

  /** The buffer shows this picture. */
  ghost predicate Shows(a: Buffer, p: Picture)
    reads a
  {
    forall x, y {:trigger a[y, x]} :: 0 <= x < a.Length1 && 0 <= y < a.Length0 ==> a[y, x] == p(x, y)
  }

  /** The rectangle lies on the buffer. */
  predicate OnScreen(a: Buffer, r: Rect) {
    0 <= r.x0 <= r.x1 <= a.Length1 && 0 <= r.y0 <= r.y1 <= a.Length0
  }

  /** (xx, yy) is in the rectangle and comes before row y, column x. */
  predicate Done(r: Rect, y: int, x: int, xx: int, yy: int) {
    In(r, xx, yy) && (yy < y || (yy == y && xx < x))
  }

  // ----------------------------------------------------------------
  // Fills
  // ----------------------------------------------------------------

  twostate predicate FilledUpTo(a: Buffer, r: Rect, c: Pixel, y: int, x: int)
    reads a
  {
    forall xx, yy {:trigger a[yy, xx]} :: 0 <= xx < a.Length1 && 0 <= yy < a.Length0 ==>
      a[yy, xx] == if Done(r, y, x, xx, yy) then c else old(a[yy, xx])
  }

  method FillRow(a: Buffer, r: Rect, y: int, c: Pixel)
    requires OnScreen(a, r) && r.y0 <= y < r.y1
    modifies a
    ensures FilledUpTo(a, Rect(r.x0, y, r.x1, y + 1), c, y + 1, r.x0)
  {
    var x := r.x0;
    while x < r.x1
      invariant r.x0 <= x <= r.x1 && FilledUpTo(a, Rect(r.x0, y, r.x1, y + 1), c, y, x)
    {
      a[y, x] := c;
      x := x + 1;
    }
  }

  /** The fill loops, in terms of what the buffer held. */
  method FillBuffer(a: Buffer, r: Rect, c: Pixel)
    requires OnScreen(a, r)
    modifies a
    ensures FilledUpTo(a, r, c, r.y1, r.x0)
  {
    var y := r.y0;
    while y < r.y1
      invariant r.y0 <= y <= r.y1 && FilledUpTo(a, r, c, y, r.x0)
    {
      FillRow(a, r, y, c);
      y := y + 1;
    }
  }

  method Fill(a: Buffer, r: Rect, c: Pixel, ghost p: Picture)
    requires Shows(a, p) && OnScreen(a, r)
    modifies a
    ensures Shows(a, Filled(p, r, c))
  {
    FillBuffer(a, r, c);
    forall xx, yy | 0 <= xx < a.Length1 && 0 <= yy < a.Length0
      ensures a[yy, xx] == Filled(p, r, c)(xx, yy)
    {
      assert a[yy, xx] == FillAt(p, r, c, xx, yy);
    }
  }

  // ----------------------------------------------------------------
  // Inversion
  // ----------------------------------------------------------------

  ghost predicate AllInMask(p: Picture, k: Channels) {
    forall x, y :: InMask(p(x, y), k)
  }

  lemma FilledInMask(p: Picture, r: Rect, c: Pixel, k: Channels)
    requires AllInMask(p, k) && InMask(c, k)
    ensures AllInMask(Filled(p, r, c), k)
  {
  }

  lemma InvertedInMask(p: Picture, r: Rect, k: Channels)
    requires AllInMask(p, k)
    ensures AllInMask(InvertedIn(p, r, k), k)
  {
  }

  lemma StampedInMask(p: Picture, r: Rect, b: Stencil, k: Channels)
    requires AllInMask(p, k)
    ensures AllInMask(Stamped(p, r, b, k), k)
  {
  }

  lemma ShiftedInMask(p: Picture, top: int, bottom: int, delta: int, c: Pixel, k: Channels)
    requires AllInMask(p, k) && InMask(c, k)
    ensures AllInMask(Shifted(p, top, bottom, delta, c), k)
  {
  }

  ghost predicate InvertedUpTo(a: Buffer, p: Picture, r: Rect, k: Channels, y: int, x: int)
    reads a
  {
    forall xx, yy {:trigger a[yy, xx]} :: 0 <= xx < a.Length1 && 0 <= yy < a.Length0 ==>
      a[yy, xx] == if Done(r, y, x, xx, yy) && InMask(p(xx, yy), k) then Inverted(p(xx, yy), k) else p(xx, yy)
  }

  method InvertRow(a: Buffer, r: Rect, y: int, k: Channels, ghost p: Picture)
    requires AllInMask(p, k) && OnScreen(a, r) && r.y0 <= y < r.y1 && InvertedUpTo(a, p, r, k, y, r.x0)
    modifies a
    ensures InvertedUpTo(a, p, r, k, y + 1, r.x0)
  {
    var x := r.x0;
    while x < r.x1
      invariant r.x0 <= x <= r.x1 && InvertedUpTo(a, p, r, k, y, x)
    {
      assert a[y, x] == p(x, y);
      a[y, x] := Inverted(a[y, x], k);
      x := x + 1;
    }
  }

  method Invert(a: Buffer, r: Rect, k: Channels, ghost p: Picture)
    requires Shows(a, p) && OnScreen(a, r) && AllInMask(p, k)
    modifies a
    ensures Shows(a, InvertedIn(p, r, k))
  {
    var y := r.y0;
    while y < r.y1
      invariant r.y0 <= y <= r.y1 && InvertedUpTo(a, p, r, k, y, r.x0)
    {
      InvertRow(a, r, y, k, p);
      y := y + 1;
    }
    forall xx, yy | 0 <= xx < a.Length1 && 0 <= yy < a.Length0
      ensures a[yy, xx] == InvertedIn(p, r, k)(xx, yy)
    {
    }
  }

  // ----------------------------------------------------------------
  // Bitmaps
  // ----------------------------------------------------------------

  ghost predicate StampedUpTo(a: Buffer, p: Picture, r: Rect, b: Stencil, k: Channels, y: int, x: int)
    reads a
  {
    forall xx, yy {:trigger a[yy, xx]} :: 0 <= xx < a.Length1 && 0 <= yy < a.Length0 ==>
      a[yy, xx] == if Done(r, y, x, xx, yy) then Stamp(b, r.x0, r.y0, xx, yy, k, p(xx, yy)) else p(xx, yy)
  }

  method StampRow(a: Buffer, r: Rect, y: int, b: Stencil, k: Channels, ghost p: Picture)
    requires OnScreen(a, r) && r.y0 <= y < r.y1 && StampedUpTo(a, p, r, b, k, y, r.x0)
    modifies a
    ensures StampedUpTo(a, p, r, b, k, y + 1, r.x0)
  {
    var foreground, background := Pack(b.foreground, k), Pack(b.background, k);
    var x := r.x0;
    while x < r.x1
      invariant r.x0 <= x <= r.x1 && StampedUpTo(a, p, r, b, k, y, x)
    {
      assert a[y, x] == p(x, y);
      if b.mark(x - r.x0, y - r.y0) {
        a[y, x] := foreground;
      } else if b.solid {
        a[y, x] := background;
      }
      x := x + 1;
    }
  }

  method DrawBitmap(a: Buffer, r: Rect, b: Stencil, k: Channels, ghost p: Picture)
    requires Shows(a, p) && OnScreen(a, r)
    modifies a
    ensures Shows(a, Stamped(p, r, b, k))
  {
    var y := r.y0;
    while y < r.y1
      invariant r.y0 <= y <= r.y1 && StampedUpTo(a, p, r, b, k, y, r.x0)
    {
      StampRow(a, r, y, b, k, p);
      y := y + 1;
    }
    forall xx, yy | 0 <= xx < a.Length1 && 0 <= yy < a.Length0
      ensures a[yy, xx] == Stamped(p, r, b, k)(xx, yy)
    {
    }
  }

  // ----------------------------------------------------------------
  // Overlapping moves
  // ----------------------------------------------------------------

  /** Rows from..to show what was amount rows below them (above, if negative), and row y does up to column x. */
  ghost predicate MovedUpTo(a: Buffer, p: Picture, from: int, to: int, amount: int, y: int, x: int)
    reads a
  {
    forall xx, yy {:trigger a[yy, xx]} :: 0 <= xx < a.Length1 && 0 <= yy < a.Length0 ==>
      a[yy, xx] == if from <= yy < to || (yy == y && xx < x) then p(xx, yy + amount) else p(xx, yy)
  }

  /** Row y, outside from..to, takes what row y + amount still shows. */
  method CopyRow(a: Buffer, from: int, to: int, amount: int, y: int, ghost p: Picture)
    requires MovedUpTo(a, p, from, to, amount, y, 0) && 0 <= y < a.Length0 && !(from <= y < to)
    requires 0 <= y + amount < a.Length0 && !(from <= y + amount < to) && amount != 0
    modifies a
    ensures MovedUpTo(a, p, from, to, amount, y, a.Length1)
  {
    var x := 0;
    while x < a.Length1
      invariant 0 <= x <= a.Length1 && MovedUpTo(a, p, from, to, amount, y, x)
    {
      assert a[y + amount, x] == p(x, y + amount);
      a[y, x] := a[y + amount, x];
      x := x + 1;
    }
  }

  /** framebuffer_copy_forward: rows move up, the first row first. */
  method MoveUp(a: Buffer, top: int, bottom: int, amount: int, ghost p: Picture)
    requires Shows(a, p) && 0 <= top && 0 < amount <= bottom - top && bottom <= a.Length0
    modifies a
    ensures MovedUpTo(a, p, top, bottom - amount, amount, top, 0)
  {
    var y := top;
    while y < bottom - amount
      invariant top <= y <= bottom - amount && MovedUpTo(a, p, top, y, amount, y, 0)
    {
      CopyRow(a, top, y, amount, y, p);
      y := y + 1;
    }
  }

  /** framebuffer_copy_backward: rows move down, the last row first. */
  method MoveDown(a: Buffer, top: int, bottom: int, amount: int, ghost p: Picture)
    requires Shows(a, p) && 0 <= top && 0 < amount <= bottom - top && bottom <= a.Length0
    modifies a
    ensures MovedUpTo(a, p, top + amount, bottom, -amount, top, 0)
  {
    var y := bottom;
    while y > top + amount
      invariant top + amount <= y <= bottom && MovedUpTo(a, p, y, bottom, -amount, y - 1, 0)
    {
      y := y - 1;
      CopyRow(a, y + 1, bottom, -amount, y, p);
    }
  }

  /** The move and the fill of the rows it uncovers, as rootdisplay_shift_vertical and rootdisplay_scroll_up do them. */
  method ShiftUp(a: Buffer, top: int, bottom: int, amount: int, c: Pixel, ghost p: Picture)
    requires Shows(a, p) && 0 <= top && 0 < amount < bottom - top && bottom <= a.Length0
    modifies a
    ensures Shows(a, Shifted(p, top, bottom, -amount, c))
  {
    MoveUp(a, top, bottom, amount, p);
    FillBuffer(a, Rect(0, bottom - amount, a.Length1, bottom), c);
    forall xx, yy | 0 <= xx < a.Length1 && 0 <= yy < a.Length0
      ensures a[yy, xx] == Shifted(p, top, bottom, -amount, c)(xx, yy)
    {
      assert a[yy, xx] == ShiftAt(p, top, bottom, -amount, c, xx, yy);
    }
  }

  method ShiftDown(a: Buffer, top: int, bottom: int, amount: int, c: Pixel, ghost p: Picture)
    requires Shows(a, p) && 0 <= top && 0 < amount < bottom - top && bottom <= a.Length0
    modifies a
    ensures Shows(a, Shifted(p, top, bottom, amount, c))
  {
    MoveDown(a, top, bottom, amount, p);
    FillBuffer(a, Rect(0, top, a.Length1, top + amount), c);
    forall xx, yy | 0 <= xx < a.Length1 && 0 <= yy < a.Length0
      ensures a[yy, xx] == Shifted(p, top, bottom, amount, c)(xx, yy)
    {
      assert a[yy, xx] == ShiftAt(p, top, bottom, amount, c, xx, yy);
    }
  }

  method Shift(a: Buffer, top: int, bottom: int, delta: int, c: Pixel, ghost p: Picture)
    requires Shows(a, p) && 0 <= top <= bottom <= a.Length0 && delta != 0 && -(bottom - top) < delta < bottom - top
    modifies a
    ensures Shows(a, Shifted(p, top, bottom, delta, c))
  {
    if delta < 0 {
      ShiftUp(a, top, bottom, -delta, c, p);
    } else {
      ShiftDown(a, top, bottom, delta, c, p);
    }
  }

  // ----------------------------------------------------------------
  // Copy to the device
  // ----------------------------------------------------------------

  twostate predicate FlushedUpTo(device: Buffer, p: Picture, r: Rect, y: int, x: int)
    reads device
  {
    forall xx, yy {:trigger device[yy, xx]} :: 0 <= xx < device.Length1 && 0 <= yy < device.Length0 ==>
      device[yy, xx] == if Done(r, y, x, xx, yy) then p(xx, yy) else old(device[yy, xx])
  }

  method FlushRow(device: Buffer, a: Buffer, r: Rect, y: int, ghost p: Picture)
    requires device != a && device.Length0 == a.Length0 && device.Length1 == a.Length1
    requires Shows(a, p) && OnScreen(a, r) && r.y0 <= y < r.y1
    modifies device
    ensures FlushedUpTo(device, p, Rect(r.x0, y, r.x1, y + 1), y + 1, r.x0)
  {
    var x := r.x0;
    while x < r.x1
      invariant r.x0 <= x <= r.x1 && FlushedUpTo(device, p, Rect(r.x0, y, r.x1, y + 1), y, x)
    {
      device[y, x] := a[y, x];
      x := x + 1;
    }
  }

  /** The row loop of rootdisplay_flush_damage: what the buffer shows inside the rectangle, no change outside. */
  method Flush(device: Buffer, a: Buffer, r: Rect, ghost p: Picture)
    requires device != a && device.Length0 == a.Length0 && device.Length1 == a.Length1
    requires Shows(a, p) && OnScreen(a, r)
    modifies device
    ensures FlushedUpTo(device, p, r, r.y1, r.x0)
  {
    var y := r.y0;
    while y < r.y1
      invariant r.y0 <= y <= r.y1 && FlushedUpTo(device, p, r, y, r.x0)
    {
      FlushRow(device, a, r, y, p);
      y := y + 1;
    }
  }
}
