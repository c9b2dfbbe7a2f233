/**
  The terminal as programs and users see it (source/terminal/terminal.c): text of one-cell
  glyphs written at a text cursor, wrapped and scrolled, and a view that can be moved into
  the history. The screen always shows what a full redraw would, and the text cursor.
 */
module TextConsole {
  import opened Basics
  import opened Pictures
  import opened Raster
  import opened Display
  import opened Terminal
  import opened TextCells

  class Console {
    const g: Graphics
    var row: nat     // terminal_row
    var col: nat     // terminal_col

    ghost predicate Valid()
      reads this`row, this`col, g, g.scrollback, g.cells, g.screen, g.screen.shadow, g.screen.device, g.screen.background
    {
      && g.Valid() && g.foreground == WHITE && g.background == BLACK
      && row < g.rows && col < g.columns && NarrowLines(g.font, g.cells[..])
    }

    ghost function Now(): Text
      reads this`row, this`col, g`pushed, g`offset, g.cells
    {
      Text(g.pushed, g.cells[..], g.offset, row, col)
    }

    /** The page of the view, and the text cursor when the view is at the bottom. */
    ghost predicate Displays()
      requires Valid()
      reads this`row, this`col, g, g.scrollback, g.cells, g.screen, g.screen.shadow, g.screen.device, g.screen.background
    {
      forall x, y {:trigger g.screen.canvas(x, y)} :: g.screen.Visible(x, y) ==>
        g.screen.canvas(x, y) == if g.offset == 0 && InCursor(col, row, x, y) then g.Colours().foreground
                                 else Page(g.Colours(), g.Window(), x, y)
    }

    /** Everything but the cell (n, r) shows the live rows. */
    ghost predicate ShownOutside(n: nat, r: nat)
      reads g.cells, g.screen
    {
      forall x, y {:trigger g.screen.canvas(x, y)} :: g.screen.Visible(x, y) && !InCell(n, r, x, y) ==>
        g.screen.canvas(x, y) == Page(g.Colours(), g.cells[..], x, y)
    }

    constructor (g: Graphics)
      requires g.Valid() && g.foreground == WHITE && g.background == BLACK && 0 < g.columns
      requires forall i :: 0 <= i < g.rows ==> g.cells[i] == BlankOf(g.columns)
      ensures Valid() && this.g == g && row == 0 && col == 0
    {
      this.g := g;
      row, col := 0, 0;
    }

    // ----------------------------------------------------------------
    // One cell
    // ----------------------------------------------------------------

    /** graphics_draw_glyph, for a glyph of one cell */
    method DrawGlyph(c: Codepoint, n: nat, r: nat)
      requires g.Fits() && g.screen.Valid() && n < g.columns && r < g.rows && g.font(c).Glyph? && g.font(c).width == CELL_WIDTH
      modifies g.screen, g.screen.shadow, g.screen.device, g.screen.background
      ensures g.screen.Valid()
      ensures GlyphDrawn(old(g.screen.canvas), g.screen.canvas, g.Colours(), g.font(c), n, r, g.screen.width, g.screen.height)
    {
      ghost var before := g.screen.canvas;
      var b := Bitmap(g.font(c).rows, GLYPH_STRIDE, g.foreground, g.background, true);
      g.screen.DrawMonoBitmap(CELL_WIDTH * n, CELL_HEIGHT * r, CELL_WIDTH, CELL_HEIGHT, b);
      forall x, y | g.screen.Visible(x, y)
        ensures g.screen.canvas(x, y) == if InCell(n, r, x, y) then GlyphPixel(g.Colours(), g.font(c), x - CELL_WIDTH * n, y - CELL_HEIGHT * r) else before(x, y)
      {
        DrawnAt(before, g.screen.canvas, c, n, r, b, x, y);
      }
    }

    lemma DrawnAt(before: Picture, after: Picture, c: Codepoint, n: nat, r: nat, b: Bitmap, x: int, y: int)
      requires g.Fits() && n < g.columns && r < g.rows && g.screen.Visible(x, y) && g.screen.width < TWO32 && g.screen.height < TWO32
      requires g.font(c).Glyph? && b == Bitmap(g.font(c).rows, GLYPH_STRIDE, g.foreground, g.background, true)
      requires after == Draw(before, DrawMono(CELL_WIDTH * n, CELL_HEIGHT * r, CELL_WIDTH, CELL_HEIGHT, b),
                             g.screen.width, g.screen.height, g.screen.look.channels)
      ensures after(x, y) == if InCell(n, r, x, y) then GlyphPixel(g.Colours(), g.font(c), x - CELL_WIDTH * n, y - CELL_HEIGHT * r) else before(x, y)
    {
      var clip := CellClip(n, r);
      assert after(x, y) == StampAt(before, clip, StencilOf(b), g.screen.look.channels, x, y);
    }

    /** A cell lies on the screen. */
    lemma CellClip(n: nat, r: nat) returns (clip: Rect)
      requires g.Fits() && n < g.columns && r < g.rows && g.screen.width < TWO32 && g.screen.height < TWO32
      ensures !Nothing(CELL_WIDTH * n, CELL_HEIGHT * r, CELL_WIDTH, CELL_HEIGHT, g.screen.width, g.screen.height)
      ensures clip == Clip(CELL_WIDTH * n, CELL_HEIGHT * r, CELL_WIDTH, CELL_HEIGHT, g.screen.width, g.screen.height)
      ensures clip.x0 == CELL_WIDTH * n && clip.y0 == CELL_HEIGHT * r
      ensures forall x, y :: In(clip, x, y) <==> InCell(n, r, x, y)
    {
      ClipMeans(CELL_WIDTH * n, CELL_WIDTH, g.screen.width);
      ClipMeans(CELL_HEIGHT * r, CELL_HEIGHT, g.screen.height);
      clip := Clip(CELL_WIDTH * n, CELL_HEIGHT * r, CELL_WIDTH, CELL_HEIGHT, g.screen.width, g.screen.height);
    }

    /** graphics_clear_cell */
    method ClearCell(n: nat, r: nat)
      requires g.Fits() && g.screen.Valid() && n < g.columns && r < g.rows
      modifies g.screen, g.screen.shadow, g.screen.device, g.screen.background
      ensures g.screen.Valid()
      ensures forall x, y {:trigger g.screen.canvas(x, y)} :: g.screen.Visible(x, y) ==>
                g.screen.canvas(x, y) == if InCell(n, r, x, y) then g.Colours().background else old(g.screen.canvas)(x, y)
    {
      ghost var before := g.screen.canvas;
      g.screen.FillRectangle(CELL_WIDTH * n, CELL_HEIGHT * r, CELL_WIDTH, CELL_HEIGHT, g.background);
      ghost var clip := CellClip(n, r);
      forall x, y | g.screen.Visible(x, y)
        ensures g.screen.canvas(x, y) == if InCell(n, r, x, y) then g.Colours().background else before(x, y)
      {
        assert g.screen.canvas(x, y) == FillAt(before, clip, g.Colours().background, x, y);
      }
    }

    /** graphics_render_live_cell: the cell then shows what it holds, whatever was there. */
    method RenderCell(n: nat, r: nat)
      requires Valid() && g.offset == 0 && n < g.columns && r < g.rows && ShownOutside(n, r)
      modifies g.screen, g.screen.shadow, g.screen.device, g.screen.background
      ensures Valid() && g.Shown(g.Window())
    {
      RowFits(r);
      ghost var view := g.cells[..];
      PaintCell(n, r, view);
      g.LiveWindow();
      CellMended(g.Colours(), view, n, r, g.screen.canvas, g.screen.width, g.screen.height);
    }

    method PaintCell(n: nat, r: nat, ghost view: seq<Line>)
      requires g.Fits() && g.screen.Valid() && n < g.columns && r < g.rows && view == g.cells[..]
      requires n < |view[r]| && NarrowLine(g.font, view[r])
      requires forall x, y {:trigger g.screen.canvas(x, y)} :: g.screen.Visible(x, y) && !InCell(n, r, x, y) ==>
                 g.screen.canvas(x, y) == Page(g.Colours(), view, x, y)
      modifies g.screen, g.screen.shadow, g.screen.device, g.screen.background
      ensures g.screen.Valid()
      ensures forall x, y {:trigger g.screen.canvas(x, y)} :: g.screen.Visible(x, y) ==>
                g.screen.canvas(x, y) ==
                if InCell(n, r, x, y) then CellPixel(g.Colours(), view[r][n], x - CELL_WIDTH * n, y - CELL_HEIGHT * r)
                else Page(g.Colours(), view, x, y)
    {
      var c := g.cells[r][n];
      assert c == view[r][n] && Narrow(g.font, c);
      if c == 0 || c == SPACE {
        ClearCell(n, r);
      } else {
        DrawGlyph(c, n, r);
      }
    }

    lemma RowFits(r: nat)
      requires Valid() && r < g.rows
      ensures |g.cells[r]| == g.columns && NarrowLine(g.font, g.cells[r])
    {
      g.CellsFit();
      assert NarrowLine(g.font, g.cells[..][r]);
    }

    // ----------------------------------------------------------------
    // The text cursor
    // ----------------------------------------------------------------

    /** Away from the bottom the page is all there is. */
    lemma NoCursorBack()
      requires Valid() && g.offset != 0
      ensures Displays() <==> g.Shown(g.Window())
    {
    }

    lemma CursorCell()
      requires Valid() && g.offset == 0 && (Displays() || g.Shown(g.Window()))
      ensures ShownOutside(col, row)
    {
      g.LiveWindow();
    }

    /** graphics_erase_cursor */
    method EraseCursor()
      requires Valid() && (Displays() || g.Shown(g.Window()))
      modifies g.screen, g.screen.shadow, g.screen.device, g.screen.background
      ensures Valid() && g.Shown(g.Window())
    {
      if g.offset == 0 {
        CursorCell();
        RenderCell(col, row);
      } else {
        NoCursorBack();
      }
    }

    /** graphics_draw_cursor */
    method DrawCursor()
      requires Valid() && g.Shown(g.Window())
      modifies g.screen, g.screen.shadow, g.screen.device, g.screen.background
      ensures Valid() && Displays()
    {
      if g.offset == 0 {
        FillCursor();
      } else {
        NoCursorBack();
      }
    }

    method FillCursor()
      requires g.Fits() && g.screen.Valid() && col < g.columns && row < g.rows
      modifies g.screen, g.screen.shadow, g.screen.device, g.screen.background
      ensures g.screen.Valid()
      ensures forall x, y {:trigger g.screen.canvas(x, y)} :: g.screen.Visible(x, y) ==>
                g.screen.canvas(x, y) == if InCursor(col, row, x, y) then g.Colours().foreground else old(g.screen.canvas)(x, y)
    {
      ghost var before := g.screen.canvas;
      g.screen.FillRectangle(CELL_WIDTH * col, CELL_HEIGHT * row + 14, CELL_WIDTH, 2, g.foreground);
      ghost var clip := CursorClip();
      forall x, y | g.screen.Visible(x, y)
        ensures g.screen.canvas(x, y) == if InCursor(col, row, x, y) then g.Colours().foreground else before(x, y)
      {
        assert g.screen.canvas(x, y) == FillAt(before, clip, g.Colours().foreground, x, y);
      }
    }

    lemma CursorClip() returns (clip: Rect)
      requires g.Fits() && col < g.columns && row < g.rows && g.screen.width < TWO32 && g.screen.height < TWO32
      ensures !Nothing(CELL_WIDTH * col, CELL_HEIGHT * row + 14, CELL_WIDTH, 2, g.screen.width, g.screen.height)
      ensures clip == Clip(CELL_WIDTH * col, CELL_HEIGHT * row + 14, CELL_WIDTH, 2, g.screen.width, g.screen.height)
      ensures forall x, y :: In(clip, x, y) <==> InCursor(col, row, x, y)
    {
      ClipMeans(CELL_WIDTH * col, CELL_WIDTH, g.screen.width);
      ClipMeans(CELL_HEIGHT * row + 14, 2, g.screen.height);
      clip := Clip(CELL_WIDTH * col, CELL_HEIGHT * row + 14, CELL_WIDTH, 2, g.screen.width, g.screen.height);
    }

    // ----------------------------------------------------------------
    // Moving the view
    // ----------------------------------------------------------------

    /** terminal_set_scrollback_offset: the text cursor disappears when the view leaves the bottom, and is not yet back when it returns. */
    method SetView(newOffset: nat)
      requires Valid() && Displays() && newOffset <= g.count
      modifies g`offset, g.screen, g.screen.shadow, g.screen.device, g.screen.background
      ensures Valid() && g.offset == newOffset
      ensures if newOffset == old(g.offset) then Displays() else g.Shown(g.Window())
    {
      if newOffset == g.offset {
        return;
      }
      if g.offset == 0 {
        EraseCursor();
      } else {
        NoCursorBack();
      }
      g.SetOffset(newOffset);
    }

    /** terminal_scrollback_up */
    method ScrollUp(lines: nat)
      requires Valid() && Displays()
      modifies g`offset, g.screen, g.screen.shadow, g.screen.device, g.screen.background
      ensures Valid() && Displays()
      ensures Shaped(old(Now()), g.columns) && Now() == AfterEvent(g.font, g.columns, old(Now()), Back(lines))
    {
      NowShaped();
      g.Depth();
      var available := g.count - g.offset;
      var actual := if lines > available then available else lines;
      if actual == 0 {
        return;
      }
      SetView(g.offset + actual);
      NoCursorBack();
    }

    /** terminal_scrollback_down */
    method ScrollDown(lines: nat)
      requires Valid() && Displays()
      modifies g`offset, g.screen, g.screen.shadow, g.screen.device, g.screen.background
      ensures Valid() && Displays()
      ensures Shaped(old(Now()), g.columns) && Now() == AfterEvent(g.font, g.columns, old(Now()), Forward(lines))
    {
      NowShaped();
      var actual := if lines > g.offset then g.offset else lines;
      if actual == 0 {
        return;
      }
      SetView(g.offset - actual);
      if g.offset == 0 {
        ShowCursor();
      } else {
        NoCursorBack();
      }
    }

    method ShowCursor()
      requires Valid() && g.Shown(g.Window())
      modifies g.screen, g.screen.shadow, g.screen.device, g.screen.background
      ensures Valid() && Displays()
    {
      g.screen.BeginUpdate();
      DrawCursor();
      g.screen.EndUpdate();
    }

    // ----------------------------------------------------------------
    // Output
    // ----------------------------------------------------------------

    /** The start of every output: back to the live rows, text cursor erased. */
    method BeginOutput()
      requires Valid() && Displays()
      modifies g`offset, g.screen, g.screen.shadow, g.screen.device, g.screen.background
      ensures Valid() && g.Shown(g.Window()) && Now() == old(Now()).(offset := 0)
    {
      SetView(0);
      g.screen.BeginUpdate();
      EraseCursor();
    }

    /** The end of every output: text cursor drawn where it is now. */
    method EndOutput()
      requires Valid() && g.Shown(g.Window())
      modifies g.screen, g.screen.shadow, g.screen.device, g.screen.background
      ensures Valid() && Displays()
    {
      DrawCursor();
      g.screen.EndUpdate();
    }

    lemma NowShaped()
      requires Valid()
      ensures Shaped(Now(), g.columns)
    {
      g.CellsFit();
    }

    /** terminal_row++ and terminal_scroll, at the start of the next line */
    method BreakLine()
      requires Valid() && g.offset == 0 && g.Shown(g.Window())
      modifies this, g, g.scrollback, g.cells, g.screen, g.screen.shadow, g.screen.device, g.screen.background
      ensures Valid() && g.offset == 0 && g.Shown(g.Window()) && Shaped(old(Now()), g.columns) && Now() == AfterNewline(old(Now()), g.columns)
    {
      NowShaped();
      col := 0;
      if row + 1 < g.rows {
        row := row + 1;
        return;
      }
      ghost var cells := g.cells[..];
      assert g.cells[1..] == cells[1..];
      g.Scroll();
      assert forall i :: 0 <= i < g.rows ==> g.cells[..][i] == if i + 1 < g.rows then cells[i + 1] else BlankOf(g.columns);
    }

    /**
      The code point goes into the cell under the text cursor and is drawn there. The
      screen then shows what a redraw would exactly when the code point does not count as
      empty or has an empty glyph.
     */
    method WriteCell(c: Codepoint)
      requires Valid() && g.offset == 0 && g.Shown(g.Window())
      requires g.font(c).Glyph? && g.font(c).width == CELL_WIDTH && c != CONTINUATION
      modifies g.cells, g.screen, g.screen.shadow, g.screen.device, g.screen.background
      ensures Valid() && Shaped(old(Now()), g.columns) && Now() == WithCell(old(Now()), g.columns, col, c)
      ensures g.Shown(g.Window()) <==> (Blank(c) ==> Unmarked(g.font(c)))
    {
      NowShaped();
      RowFits(row);
      g.LiveWindow();
      StoreCell(col, c);
      ghost var before := g.screen.canvas;
      DrawGlyph(c, col, row);
      g.LiveWindow();
      InkShows(g.screen.look.channels);
      CellShownIff(g.Colours(), old(g.cells[..]), col, row, c, before, g.screen.canvas, g.screen.width, g.screen.height);
    }

    method StoreCell(n: nat, c: Codepoint)
      requires Valid() && n < g.columns && Narrow(g.font, c)
      modifies g.cells
      ensures Valid() && Shaped(old(Now()), g.columns) && Now() == WithCell(old(Now()), g.columns, n, c)
    {
      NowShaped();
      RowFits(row);
      ghost var cells := g.cells[..];
      g.StoreRow(row, SetCell(g.cells[row], n, c));
      forall i | 0 <= i < g.rows
        ensures NarrowLine(g.font, g.cells[..][i])
      {
        assert NarrowLine(g.font, cells[i]);
      }
    }

    /** A code point that is no control character. */
    method PutPlain(c: Codepoint)
      requires Valid() && g.offset == 0 && g.Shown(g.Window()) && Plain(g.font, c)
      modifies this, g, g.scrollback, g.cells, g.screen, g.screen.shadow, g.screen.device, g.screen.background
      ensures Valid() && g.offset == 0 && g.Shown(g.Window())
      ensures Shaped(old(Now()), g.columns) && Now() == AfterPlain(g.font, g.columns, old(Now()), c)
    {
      NowShaped();
      if g.font(c).NoGlyph? {
        return;
      }
      WriteCell(c);
      if col + 1 < g.columns {
        col := col + 1;
      } else {
        BreakLine();
      }
    }

    method PutSpaces(n: nat)
      requires Valid() && g.offset == 0 && g.Shown(g.Window()) && Plain(g.font, SPACE)
      modifies this, g, g.scrollback, g.cells, g.screen, g.screen.shadow, g.screen.device, g.screen.background
      ensures Valid() && g.offset == 0 && g.Shown(g.Window())
      ensures Shaped(old(Now()), g.columns) && Now() == AfterSpaces(g.font, g.columns, old(Now()), n)
    {
      NowShaped();
      for i := 0 to n
        invariant Valid() && g.offset == 0 && g.Shown(g.Window())
        invariant Now() == AfterSpaces(g.font, g.columns, old(Now()), i)
      {
        PutPlain(SPACE);
      }
    }

    /** One cell back, which is emptied. */
    method EraseBack()
      requires Valid() && g.offset == 0 && g.Shown(g.Window())
      modifies this`col, g.cells, g.screen, g.screen.shadow, g.screen.device, g.screen.background
      ensures Valid() && g.Shown(g.Window())
      ensures Shaped(old(Now()), g.columns) && Now() == AfterBackspace(old(Now()), g.columns)
    {
      NowShaped();
      if col == 0 {
        return;
      }
      ghost var t := Now();
      EraseCell(col - 1);
      ghost var u := Now();
      StepBack();
      Backspaced(t, g.columns, u, Now());
    }

    method StepBack()
      requires Valid() && g.Shown(g.Window()) && col > 0
      modifies this`col
      ensures Valid() && g.Shown(g.Window()) && Now() == old(Now()).(col := old(col) - 1)
    {
      col := col - 1;
    }

    method EraseCell(n: nat)
      requires Valid() && g.offset == 0 && g.Shown(g.Window()) && n < g.columns
      modifies g.cells, g.screen, g.screen.shadow, g.screen.device, g.screen.background
      ensures Valid() && g.Shown(g.Window())
      ensures Shaped(old(Now()), g.columns) && Now() == WithCell(old(Now()), g.columns, n, SPACE)
    {
      EmptyCell(n);
      RenderCell(n, row);
    }

    /** The cell is emptied, and not yet drawn. */
    method EmptyCell(n: nat)
      requires Valid() && g.offset == 0 && g.Shown(g.Window()) && n < g.columns
      modifies g.cells
      ensures Valid() && ShownOutside(n, row)
      ensures Shaped(old(Now()), g.columns) && Now() == WithCell(old(Now()), g.columns, n, SPACE)
    {
      NowShaped();
      RowFits(row);
      g.LiveWindow();
      CellOnly(g.Colours(), g.cells[..], n, row, SPACE, g.screen.canvas, g.screen.width, g.screen.height);
      StoreCell(n, SPACE);
    }

    /** terminal_putcodepoint_internal */
    method PutCodepoint(c: Codepoint)
      requires Valid() && g.offset == 0 && g.Shown(g.Window())
      requires Plain(g.font, SPACE) && (c in {BACKSPACE, TAB, NEWLINE, RETURN} || Plain(g.font, c))
      modifies this, g, g.scrollback, g.cells, g.screen, g.screen.shadow, g.screen.device, g.screen.background
      ensures Valid() && g.offset == 0 && g.Shown(g.Window())
      ensures Shaped(old(Now()), g.columns) && Now() == AfterPut(g.font, g.columns, old(Now()), c)
    {
      NowShaped();
      if c == NEWLINE {
        BreakLine();
      } else if c == TAB {
        PutSpaces(4 - col % 4);
      } else if c == RETURN || c == BACKSPACE {
        MoveBack(c);
      } else {
        PutPlain(c);
      }
    }

    method MoveBack(c: Codepoint)
      requires Valid() && g.offset == 0 && g.Shown(g.Window()) && c in {RETURN, BACKSPACE}
      modifies this`col, g.cells, g.screen, g.screen.shadow, g.screen.device, g.screen.background
      ensures Valid() && g.Shown(g.Window())
      ensures Shaped(old(Now()), g.columns) && Now() == AfterPut(g.font, g.columns, old(Now()), c)
    {
      NowShaped();
      if c == RETURN {
        col := 0;
      } else {
        EraseBack();
      }
    }

    method PutAll(text: seq<Codepoint>)
      requires Valid() && g.offset == 0 && g.Shown(g.Window()) && PlainText(g.font, text)
      modifies this, g, g.scrollback, g.cells, g.screen, g.screen.shadow, g.screen.device, g.screen.background
      ensures Valid() && g.offset == 0 && g.Shown(g.Window())
      ensures Shaped(old(Now()), g.columns) && Now() == AfterText(g.font, g.columns, old(Now()), text)
    {
      NowShaped();
      ghost var t := Now();
      for i := 0 to |text|
        invariant Valid() && g.offset == 0 && g.Shown(g.Window())
        invariant Now() == AfterText(g.font, g.columns, t, text[..i])
      {
        PutNext(text, i, t);
      }
      assert text[..|text|] == text;
    }

    method PutNext(text: seq<Codepoint>, i: nat, ghost t: Text)
      requires Valid() && g.offset == 0 && g.Shown(g.Window()) && PlainText(g.font, text) && i < |text|
      requires Shaped(t, g.columns) && Now() == AfterText(g.font, g.columns, t, text[..i])
      modifies this, g, g.scrollback, g.cells, g.screen, g.screen.shadow, g.screen.device, g.screen.background
      ensures Valid() && g.offset == 0 && g.Shown(g.Window())
      ensures Now() == AfterText(g.font, g.columns, t, text[..i + 1])
    {
      NextPut(g.font, g.columns, t, text, i);
      PutCodepoint(text[i]);
    }

    /** terminal_print, on decoded text */
    method Print(text: seq<Codepoint>)
      requires Valid() && Displays() && PlainText(g.font, text)
      modifies this, g, g.scrollback, g.cells, g.screen, g.screen.shadow, g.screen.device, g.screen.background
      ensures Valid() && Displays()
      ensures Shaped(old(Now()), g.columns) && Now() == AfterText(g.font, g.columns, old(Now()).(offset := 0), text)
    {
      NowShaped();
      BeginOutput();
      PutAll(text);
      EndOutput();
    }

    /** terminal_clear; what its own start draws is wiped out. */
    method Clear()
      requires Valid()
      modifies this, g`offset, g.cells, g.screen, g.screen.shadow, g.screen.device, g.screen.background
      ensures Valid() && Displays()
      ensures Now() == Text(old(g.pushed), BlankRows(g.rows, g.columns), 0, 0, 0)
    {
      g.screen.BeginUpdate();
      row, col := 0, 0;
      BlankAll();
      EndOutput();
    }

    method BlankAll()
      requires Valid()
      modifies g`offset, g.cells, g.screen, g.screen.shadow, g.screen.device, g.screen.background
      ensures Valid() && g.Shown(g.Window()) && g.offset == 0 && g.cells[..] == BlankRows(g.rows, g.columns)
    {
      g.ClearAll();
      forall i | 0 <= i < g.rows
        ensures NarrowLine(g.font, g.cells[..][i])
      {
        assert g.cells[..][i] == BlankOf(g.columns);
      }
    }

    // ----------------------------------------------------------------
    // Sessions
    // ----------------------------------------------------------------

    method Handle(e: Event)
      requires Valid() && Displays() && Possible(g.font, e)
      modifies this, g, g.scrollback, g.cells, g.screen, g.screen.shadow, g.screen.device, g.screen.background
      ensures Valid() && Displays()
      ensures Shaped(old(Now()), g.columns) && Now() == AfterEvent(g.font, g.columns, old(Now()), e)
    {
      NowShaped();
      match e
      case Back(lines) => ScrollUp(lines);
      case Forward(lines) => ScrollDown(lines);
      case Write(text) => Print(text);
      case Wipe => Clear();
    }
  }

  /** What happens to a terminal: the user looks back or forward, text is printed, the screen is cleared. */
  datatype Event = Back(lines: nat) | Forward(lines: nat) | Write(text: seq<Codepoint>) | Wipe

  predicate Possible(font: Font, e: Event) {
    e.Write? ==> PlainText(font, e.text)
  }

  function HistorySize(pushed: seq<Line>): nat {
    if |pushed| > HISTORY then HISTORY else |pushed|
  }

  function AfterEvent(font: Font, columns: nat, t: Text, e: Event): (u: Text)
    requires Shaped(t, columns)
    ensures Shaped(u, columns) && |u.cells| == |t.cells|
  {
    match e
    case Back(lines) =>
      t.(offset := if t.offset + lines > HistorySize(t.pushed) then HistorySize(t.pushed) else t.offset + lines)
    case Forward(lines) => t.(offset := if lines > t.offset then 0 else t.offset - lines)
    case Write(text) => AfterText(font, columns, t.(offset := 0), text)
    case Wipe => Text(t.pushed, BlankRows(|t.cells|, columns), 0, 0, 0)
  }

  function AfterEvents(font: Font, columns: nat, t: Text, es: seq<Event>): (u: Text)
    requires Shaped(t, columns)
    ensures Shaped(u, columns) && |u.cells| == |t.cells|
  {
    if es == [] then t else AfterEvent(font, columns, AfterEvents(font, columns, t, es[..|es| - 1]), es[|es| - 1])
  }

  lemma NextEvent(font: Font, columns: nat, t: Text, es: seq<Event>, i: nat)
    requires Shaped(t, columns) && i < |es|
    ensures AfterEvents(font, columns, t, es[..i + 1]) == AfterEvent(font, columns, AfterEvents(font, columns, t, es[..i]), es[i])
  {
    assert es[..i + 1][..i] == es[..i];
  }

  /**
    Every session of text, scrolling back and forth and clearing: the screen shows pixel by
    pixel the page a full redraw of the view would show, with the text cursor at the bottom
    of the history and nowhere else; the rows hold what the text machine says.
   */
  method Session(t: Console, es: seq<Event>)
    requires t.Valid() && t.Displays() && forall i :: 0 <= i < |es| ==> Possible(t.g.font, es[i])
    modifies t, t.g, t.g.scrollback, t.g.cells, t.g.screen, t.g.screen.shadow, t.g.screen.device, t.g.screen.background
    ensures t.Valid() && t.Displays()
    ensures Shaped(old(t.Now()), t.g.columns) && t.Now() == AfterEvents(t.g.font, t.g.columns, old(t.Now()), es)
  {
    t.NowShaped();
    for i := 0 to |es|
      invariant t.Valid() && t.Displays()
      invariant t.Now() == AfterEvents(t.g.font, t.g.columns, old(t.Now()), es[..i])
    {
      NextEvent(t.g.font, t.g.columns, old(t.Now()), es, i);
      t.Handle(es[i]);
    }
    assert es[..|es|] == es;
  }

  /** From power-on: a black screen, an empty terminal, and then any session. */
  method PowerOn(width: nat, height: nat, channels: Channels, device: Buffer, font: Font,
                 scrollback: array<Line>, cells: array<Line>, es: seq<Event>) returns (t: Console)
    requires CELL_WIDTH <= width < 0x8000_0000 && CELL_HEIGHT <= height < 0x8000_0000
    requires device.Length0 == height && device.Length1 == width && FontFits(font)
    requires scrollback.Length == HISTORY && cells.Length == RowsIn(height) && scrollback != cells
    requires forall i :: 0 <= i < |es| ==> Possible(font, es[i])
    modifies device, scrollback, cells
    ensures fresh(t) && t.Valid() && t.Displays()
    ensures var start := Text([], BlankRows(RowsIn(height), ColumnsIn(width)), 0, 0, 0);
            && Shaped(start, ColumnsIn(width))
            && t.Now() == AfterEvents(font, ColumnsIn(width), start, es)
  {
    var screen := new Screen(width, height, channels, device);
    var g := new Graphics(screen, font, scrollback, cells);
    t := new Console(g);
    t.Clear();
    Session(t, es);
  }
}
