/**
  Text of one-cell glyphs (source/terminal/terminal.c): which pixels a single cell decides,
  and what writing, erasing and breaking lines do to the rows of a terminal.
 */
module TextCells {
  import opened Basics
  import opened Pictures
  import opened Terminal

  const BACKSPACE := 8
  const TAB := 9
  const NEWLINE := 10
  const RETURN := 13

  // ----------------------------------------------------------------
  // Pixels of a cell
  // ----------------------------------------------------------------

  /** A cell that is empty or holds a glyph of its own width. */
  predicate Narrow(font: Font, c: Codepoint) {
    c == 0 || c == SPACE || (!Blank(c) && font(c).Glyph? && font(c).width == CELL_WIDTH)
  }

  predicate NarrowLine(font: Font, line: Line) {
    forall n {:trigger Narrow(font, line[n])} :: 0 <= n < |line| ==> Narrow(font, line[n])
  }

  predicate NarrowLines(font: Font, lines: seq<Line>) {
    forall i {:trigger NarrowLine(font, lines[i])} :: 0 <= i < |lines| ==> NarrowLine(font, lines[i])
  }

  predicate InCell(n: nat, r: nat, x: int, y: int) {
    CELL_WIDTH * n <= x < CELL_WIDTH * n + CELL_WIDTH && CELL_HEIGHT * r <= y < CELL_HEIGHT * r + CELL_HEIGHT
  }

  /** The text cursor: the two lowest pixel lines of a cell. */
  predicate InCursor(n: nat, r: nat, x: int, y: int) {
    InCell(n, r, x, y) && y >= CELL_HEIGHT * r + 14
  }

  function CellPixel(style: Style, c: Codepoint, dx: nat, dy: nat): Pixel {
    if !Blank(c) && style.font(c).Glyph? && Marked(style.font(c))(dx, dy) then style.foreground else style.background
  }

  /** In a narrow line only one glyph can set a pixel. */
  lemma {:induction false} NarrowWritten(font: Font, line: Line, n: nat, x: int, dy: int)
    requires NarrowLine(font, line) && n <= |line| && 0 <= x
    ensures Written(font, line, n, x, dy) <==> x / CELL_WIDTH < n && Marks(font, line, x / CELL_WIDTH, x, dy)
  {
    if n > 0 {
      NarrowWritten(font, line, n - 1, x, dy);
      assert Narrow(font, line[n - 1]);
    }
  }

  lemma NarrowPixel(style: Style, line: Line, x: int, dy: nat)
    requires NarrowLine(style.font, line) && 0 <= x
    ensures RowPixel(style, line, x, dy) ==
            if x / CELL_WIDTH < |line| then CellPixel(style, line[x / CELL_WIDTH], x % CELL_WIDTH, dy) else style.background
  {
    NarrowWritten(style.font, line, |line|, x, dy);
    if x / CELL_WIDTH < |line| {
      assert Narrow(style.font, line[x / CELL_WIDTH]);
    }
  }

  lemma CellOf(n: nat, r: nat, x: int, y: int)
    requires 0 <= x && 0 <= y
    ensures InCell(n, r, x, y) <==> x / CELL_WIDTH == n && y / CELL_HEIGHT == r
    ensures InCell(n, r, x, y) ==> x - CELL_WIDTH * n == x % CELL_WIDTH && y - CELL_HEIGHT * r == y % CELL_HEIGHT
  {
  }

  function SetCell(line: Line, n: nat, c: Codepoint): (l: Line)
    requires n < |line|
    ensures |l| == |line| && l[n] == c && forall i :: 0 <= i < |line| && i != n ==> l[i] == line[i]
  {
    line[n := c]
  }

  /** Writing one cell of a page changes the pixels of that cell, to those of the new code point. */
  lemma PageCell(style: Style, view: seq<Line>, n: nat, r: nat, c: Codepoint, x: int, y: int)
    requires r < |view| && n < |view[r]| && NarrowLine(style.font, view[r]) && Narrow(style.font, c) && 0 <= x && 0 <= y
    ensures Page(style, view[r := SetCell(view[r], n, c)], x, y) ==
            if InCell(n, r, x, y) then CellPixel(style, c, x - CELL_WIDTH * n, y - CELL_HEIGHT * r) else Page(style, view, x, y)
  {
    CellOf(n, r, x, y);
    if y / CELL_HEIGHT == r {
      NarrowPixel(style, view[r], x, y % CELL_HEIGHT);
      NarrowPixel(style, SetCell(view[r], n, c), x, y % CELL_HEIGHT);
    }
  }

  /** What an opaquely drawn glyph leaves at (dx, dy) of its cell. */
  function GlyphPixel(style: Style, g: Glyph, dx: nat, dy: nat): Pixel
    requires g.Glyph?
  {
    if Marked(g)(dx, dy) then style.foreground else style.background
  }

  /** The picture q shows this page on a screen of w by h. */
  ghost predicate ShowsPage(q: Picture, style: Style, view: seq<Line>, w: nat, h: nat) {
    forall x, y {:trigger q(x, y)} :: 0 <= x < w && 0 <= y < h ==> q(x, y) == Page(style, view, x, y)
  }

  /** q is p with the glyph g drawn opaquely into a cell. */
  ghost predicate GlyphDrawn(p: Picture, q: Picture, style: Style, g: Glyph, n: nat, r: nat, w: nat, h: nat)
    requires g.Glyph?
  {
    forall x, y {:trigger q(x, y)} :: 0 <= x < w && 0 <= y < h ==>
      q(x, y) == if InCell(n, r, x, y) then GlyphPixel(style, g, x - CELL_WIDTH * n, y - CELL_HEIGHT * r) else p(x, y)
  }

  /**
    A code point written into a cell and drawn there shows the new page exactly when it is
    not one of those that count as empty, or its glyph is empty.
   */
  lemma CellShownIff(style: Style, view: seq<Line>, n: nat, r: nat, c: Codepoint, p: Picture, q: Picture, w: nat, h: nat)
    requires r < |view| && n < |view[r]| && NarrowLine(style.font, view[r]) && Narrow(style.font, c) && style.font(c).Glyph?
    requires CELL_WIDTH * n + CELL_WIDTH <= w && CELL_HEIGHT * r + CELL_HEIGHT <= h && style.foreground != style.background
    requires ShowsPage(p, style, view, w, h) && GlyphDrawn(p, q, style, style.font(c), n, r, w, h)
    ensures ShowsPage(q, style, view[r := SetCell(view[r], n, c)], w, h) <==> (Blank(c) ==> Unmarked(style.font(c)))
  {
    var view' := view[r := SetCell(view[r], n, c)];
    if Blank(c) ==> Unmarked(style.font(c)) {
      forall x, y | 0 <= x < w && 0 <= y < h
        ensures q(x, y) == Page(style, view', x, y)
      {
        PageCell(style, view, n, r, c, x, y);
        assert InCell(n, r, x, y) && Blank(c) ==> !Marked(style.font(c))(x - CELL_WIDTH * n, y - CELL_HEIGHT * r);
      }
    } else {
      var dx, dy :| 0 <= dx < CELL_WIDTH && 0 <= dy < CELL_HEIGHT && Marked(style.font(c))(dx, dy);
      var x, y := CELL_WIDTH * n + dx, CELL_HEIGHT * r + dy;
      PageCell(style, view, n, r, c, x, y);
      assert q(x, y) == style.foreground;
    }
  }

  const DOT := Glyph(CELL_WIDTH, [128])

  lemma DotMarked()
    ensures Marked(DOT)(0, 0) && !Unmarked(DOT)
  {
    assert Power(7) == 128;
    assert BitSet([128], GLYPH_STRIDE, 0, 0);
  }

  /** Such a case: NUL with a glyph of one dot is drawn as a dot, and a redraw leaves it out. */
  lemma NulCounterexample(style: Style, line: Line, p: Picture, q: Picture, w: nat, h: nat)
    requires style.font(0) == DOT && style.foreground != style.background && line == [SPACE] && w >= CELL_WIDTH && h >= CELL_HEIGHT
    requires ShowsPage(p, style, [line], w, h) && GlyphDrawn(p, q, style, DOT, 0, 0, w, h)
    ensures !ShowsPage(q, style, [line][0 := SetCell(line, 0, 0)], w, h)
  {
    DotMarked();
    assert Blank(0) && Narrow(style.font, 0) && NarrowLine(style.font, line);
    CellShownIff(style, [line], 0, 0, 0, p, q, w, h);
  }

  /** Writing a cell leaves the page right everywhere else. */
  lemma CellOnly(style: Style, view: seq<Line>, n: nat, r: nat, c: Codepoint, q: Picture, w: nat, h: nat)
    requires r < |view| && n < |view[r]| && NarrowLine(style.font, view[r]) && Narrow(style.font, c) && ShowsPage(q, style, view, w, h)
    ensures forall x, y {:trigger q(x, y)} :: 0 <= x < w && 0 <= y < h && !InCell(n, r, x, y) ==>
              q(x, y) == Page(style, view[r := SetCell(view[r], n, c)], x, y)
  {
    forall x, y | 0 <= x < w && 0 <= y < h && !InCell(n, r, x, y)
      ensures q(x, y) == Page(style, view[r := SetCell(view[r], n, c)], x, y)
    {
      PageCell(style, view, n, r, c, x, y);
    }
  }

  /** The page where a cell is painted as it should be, and everything else was right. */
  lemma CellMended(style: Style, view: seq<Line>, n: nat, r: nat, q: Picture, w: nat, h: nat)
    requires r < |view| && n < |view[r]| && NarrowLine(style.font, view[r])
    requires forall x, y {:trigger q(x, y)} :: 0 <= x < w && 0 <= y < h ==>
               q(x, y) == if InCell(n, r, x, y) then CellPixel(style, view[r][n], x - CELL_WIDTH * n, y - CELL_HEIGHT * r)
                          else Page(style, view, x, y)
    ensures ShowsPage(q, style, view, w, h)
  {
    assert Narrow(style.font, view[r][n]);
    assert SetCell(view[r], n, view[r][n]) == view[r];
    assert view[r := view[r]] == view;
    forall x, y | 0 <= x < w && 0 <= y < h
      ensures q(x, y) == Page(style, view, x, y)
    {
      PageCell(style, view, n, r, view[r][n], x, y);
    }
  }

  // ----------------------------------------------------------------
  // Text as rows of cells
  // ----------------------------------------------------------------

  /** The history, the live rows, the view and the position of the text cursor. */
  datatype Text = Text(pushed: seq<Line>, cells: seq<Line>, offset: nat, row: nat, col: nat)

  predicate Shaped(t: Text, columns: nat) {
    t.row < |t.cells| && t.col < columns && AllWide(t.cells, columns)
  }

  lemma WideSet(lines: seq<Line>, r: nat, line: Line, columns: nat)
    requires AllWide(lines, columns) && r < |lines| && |line| == columns
    ensures AllWide(lines[r := line], columns)
  {
    var lines' := lines[r := line];
    forall i | 0 <= i < |lines|
      ensures Wide(lines', i, columns)
    {
      assert Wide(lines, i, columns);
    }
  }

  lemma WideScrolled(lines: seq<Line>, line: Line, columns: nat)
    requires AllWide(lines, columns) && lines != [] && |line| == columns
    ensures AllWide(lines[1..] + [line], columns)
  {
    var lines' := lines[1..] + [line];
    forall i | 0 <= i < |lines|
      ensures Wide(lines', i, columns)
    {
      assert i + 1 < |lines| ==> Wide(lines, i + 1, columns);
    }
  }

  function AfterNewline(t: Text, columns: nat): (u: Text)
    requires Shaped(t, columns)
    ensures Shaped(u, columns) && |u.cells| == |t.cells|
  {
    if t.row + 1 < |t.cells| then t.(row := t.row + 1, col := 0)
    else
      WideScrolled(t.cells, BlankOf(columns), columns);
      Text(t.pushed + [t.cells[0]], t.cells[1..] + [BlankOf(columns)], t.offset, t.row, 0)
  }

  function WithCell(t: Text, columns: nat, n: nat, c: Codepoint): (u: Text)
    requires Shaped(t, columns) && n < columns
    ensures Shaped(u, columns) && |u.cells| == |t.cells|
  {
    assert Wide(t.cells, t.row, columns);
    WideSet(t.cells, t.row, SetCell(t.cells[t.row], n, c), columns);
    t.(cells := t.cells[t.row := SetCell(t.cells[t.row], n, c)])
  }

  /** A code point that is no control character; one without a glyph is ignored. */
  function AfterPlain(font: Font, columns: nat, t: Text, c: Codepoint): (u: Text)
    requires Shaped(t, columns)
    ensures Shaped(u, columns) && |u.cells| == |t.cells|
  {
    if font(c).NoGlyph? then t else
      var u := WithCell(t, columns, t.col, c);
      if t.col + 1 < columns then u.(col := t.col + 1) else AfterNewline(u, columns)
  }

  function AfterSpaces(font: Font, columns: nat, t: Text, n: nat): (u: Text)
    requires Shaped(t, columns)
    ensures Shaped(u, columns) && |u.cells| == |t.cells|
  {
    if n == 0 then t else AfterPlain(font, columns, AfterSpaces(font, columns, t, n - 1), SPACE)
  }

  function AfterBackspace(t: Text, columns: nat): (u: Text)
    requires Shaped(t, columns)
    ensures Shaped(u, columns) && |u.cells| == |t.cells|
  {
    if t.col == 0 then t else WithCell(t, columns, t.col - 1, SPACE).(col := t.col - 1)
  }

  lemma Backspaced(t: Text, columns: nat, u: Text, v: Text)
    requires Shaped(t, columns) && t.col > 0 && u == WithCell(t, columns, t.col - 1, SPACE) && v == u.(col := t.col - 1)
    ensures v == AfterBackspace(t, columns)
  {
  }

  /** terminal_putcodepoint_internal */
  function AfterPut(font: Font, columns: nat, t: Text, c: Codepoint): (u: Text)
    requires Shaped(t, columns)
    ensures Shaped(u, columns) && |u.cells| == |t.cells|
  {
    if c == NEWLINE then AfterNewline(t, columns)
    else if c == RETURN then t.(col := 0)
    else if c == TAB then AfterSpaces(font, columns, t, 4 - t.col % 4)
    else if c == BACKSPACE then AfterBackspace(t, columns)
    else AfterPlain(font, columns, t, c)
  }

  function AfterText(font: Font, columns: nat, t: Text, text: seq<Codepoint>): (u: Text)
    requires Shaped(t, columns)
    ensures Shaped(u, columns) && |u.cells| == |t.cells|
  {
    if text == [] then t else
      AfterPut(font, columns, AfterText(font, columns, t, text[..|text| - 1]), text[|text| - 1])
  }

  lemma NextPut(font: Font, columns: nat, t: Text, text: seq<Codepoint>, i: nat)
    requires Shaped(t, columns) && i < |text|
    ensures AfterText(font, columns, t, text[..i + 1]) == AfterPut(font, columns, AfterText(font, columns, t, text[..i]), text[i])
  {
    assert text[..i + 1][..i] == text[..i];
  }

  // ----------------------------------------------------------------
  // Where the text goes
  // ----------------------------------------------------------------

  /** Everything printed so far as one sheet: the lines that have left the screen, then the rows on it. */
  function Sheet(t: Text): seq<Line> {
    t.pushed + t.cells
  }

  /** The line of the sheet the text cursor is on. */
  function Position(t: Text): nat {
    |t.pushed| + t.row
  }

  /** The sheet of u is that of t with this line at the cursor. */
  ghost predicate LineBecomes(t: Text, u: Text, line: Line) {
    && |Sheet(u)| == |Sheet(t)| && Position(t) < |Sheet(t)| && Sheet(u)[Position(t)] == line
    && forall i :: 0 <= i < |Sheet(t)| && i != Position(t) ==> Sheet(u)[i] == Sheet(t)[i]
  }

  /** A newline goes to the start of the next line of the sheet, which grows by a blank line when it ends. */
  lemma NewlineMeans(font: Font, columns: nat, t: Text)
    requires Shaped(t, columns)
    ensures var u := AfterPut(font, columns, t, 10);
            && Position(u) == Position(t) + 1 && u.col == 0 && u.offset == t.offset
            && Sheet(u) == Sheet(t) + if Position(t) + 1 < |Sheet(t)| then [] else [BlankOf(columns)]
  {
    if t.row + 1 == |t.cells| {
      assert t.cells == [t.cells[0]] + t.cells[1..];
    }
  }

  /** A carriage return goes to the start of the line and changes nothing. */
  lemma ReturnMeans(font: Font, columns: nat, t: Text)
    requires Shaped(t, columns)
    ensures var u := AfterPut(font, columns, t, 13);
            Sheet(u) == Sheet(t) && Position(u) == Position(t) && u.col == 0 && u.offset == t.offset
  {
  }

  lemma CellSet(t: Text, columns: nat, n: nat, c: Codepoint)
    requires Shaped(t, columns) && n < columns
    ensures var u := WithCell(t, columns, n, c);
            && |t.cells[t.row]| == columns && LineBecomes(t, u, t.cells[t.row][n := c])
            && Position(u) == Position(t) && u.col == t.col && u.offset == t.offset && |u.pushed| == |t.pushed|
  {
    assert Wide(t.cells, t.row, columns);
  }

  /** Backspace blanks the cell before the cursor and goes there; at the start of a line it does nothing. */
  lemma BackspaceMeans(font: Font, columns: nat, t: Text)
    requires Shaped(t, columns)
    ensures var u := AfterPut(font, columns, t, 8);
            && Position(u) == Position(t) && u.offset == t.offset
            && (t.col == 0 ==> u == t)
            && (t.col > 0 ==> |t.cells[t.row]| == columns && u.col == t.col - 1 && LineBecomes(t, u, t.cells[t.row][t.col - 1 := 32]))
  {
    assert Wide(t.cells, t.row, columns);
    if t.col > 0 {
      CellSet(t, columns, t.col - 1, SPACE);
    }
  }

  predicate Control(c: Codepoint) {
    c in {8, 9, 10, 13}
  }

  /** Any other code point with a glyph is written at the cursor, which moves on by one cell. */
  lemma PlainMeans(font: Font, columns: nat, t: Text, c: Codepoint)
    requires Shaped(t, columns) && !Control(c)
    ensures font(c).NoGlyph? ==> AfterPut(font, columns, t, c) == t
    ensures font(c).Glyph? && t.col + 1 < columns ==>
              var u := AfterPut(font, columns, t, c);
              && |t.cells[t.row]| == columns && LineBecomes(t, u, t.cells[t.row][t.col := c])
              && Position(u) == Position(t) && u.col == t.col + 1 && u.offset == t.offset
  {
    assert Wide(t.cells, t.row, columns);
    CellSet(t, columns, t.col, c);
  }

  /** The last cell of a line is written before the line is broken. */
  lemma WrapMeans(font: Font, columns: nat, t: Text, c: Codepoint)
    requires Shaped(t, columns) && !Control(c) && font(c).Glyph? && t.col + 1 == columns
    ensures var u := AfterPut(font, columns, t, c);
            && |t.cells[t.row]| == columns && Position(u) == Position(t) + 1 && u.col == 0 && Position(t) < |Sheet(t)|
            && Sheet(u) == Sheet(t)[Position(t) := SetCell(t.cells[t.row], t.col, c)]
                           + if Position(t) + 1 < |Sheet(t)| then [] else [BlankOf(columns)]
  {
    assert Wide(t.cells, t.row, columns);
    CellSet(t, columns, t.col, c);
    var v := WithCell(t, columns, t.col, c);
    NewlineMeans(font, columns, v);
    assert Sheet(v) == Sheet(t)[Position(t) := SetCell(t.cells[t.row], t.col, c)];
  }

  /** A text of one-cell glyphs that ends before the line does stands in the line as it is. */
  lemma {:induction false} TextMeans(font: Font, columns: nat, t: Text, text: seq<Codepoint>)
    requires Shaped(t, columns) && t.col + |text| < columns
    requires forall i :: 0 <= i < |text| ==> !Control(text[i]) && font(text[i]).Glyph?
    ensures var u := AfterText(font, columns, t, text);
            && |t.cells[t.row]| == columns && Position(u) == Position(t) && u.col == t.col + |text| && u.offset == t.offset
            && LineBecomes(t, u, t.cells[t.row][..t.col] + text + t.cells[t.row][t.col + |text|..])
  {
    assert Wide(t.cells, t.row, columns);
    if text == [] {
      assert t.cells[t.row][..t.col] + text + t.cells[t.row][t.col..] == t.cells[t.row];
    } else {
      var n := |text| - 1;
      var v := AfterText(font, columns, t, text[..n]);
      TextMeans(font, columns, t, text[..n]);
      PlainMeans(font, columns, v, text[n]);
      NextCell(t.cells[t.row], t.col, text);
    }
  }

  lemma NextCell(line: Line, at: nat, text: seq<Codepoint>)
    requires text != [] && at + |text| < |line|
    ensures var n := |text| - 1;
            (line[..at] + text[..n] + line[at + n..])[at + n := text[n]] == line[..at] + text + line[at + |text|..]
  {
  }

  lemma {:induction false} SpacesAreText(font: Font, columns: nat, t: Text, n: nat)
    requires Shaped(t, columns)
    ensures AfterSpaces(font, columns, t, n) == AfterText(font, columns, t, BlankOf(n))
  {
    if n > 0 {
      SpacesAreText(font, columns, t, n - 1);
      assert BlankOf(n)[..n - 1] == BlankOf(n - 1);
    }
  }

  lemma TabIsSpaces(font: Font, columns: nat, t: Text, n: nat)
    requires Shaped(t, columns) && n == t.col / 4 * 4 + 4 - t.col
    ensures AfterPut(font, columns, t, 9) == AfterSpaces(font, columns, t, n)
  {
    assert n == 4 - t.col % 4;
  }

  lemma SpacesMean(font: Font, columns: nat, t: Text, n: nat, to: nat)
    requires Shaped(t, columns) && font(32).Glyph? && to == t.col + n < columns
    ensures var u := AfterSpaces(font, columns, t, n);
            && |t.cells[t.row]| == columns && Position(u) == Position(t) && u.col == to && u.offset == t.offset
            && LineBecomes(t, u, t.cells[t.row][..t.col] + BlankOf(n) + t.cells[t.row][to..])
  {
    SpacesAreText(font, columns, t, n);
    TextMeans(font, columns, t, BlankOf(n));
  }

  /** A tab inside the line writes spaces up to the next multiple of four. */
  lemma TabMeans(font: Font, columns: nat, t: Text, to: nat)
    requires Shaped(t, columns) && font(32).Glyph? && to == t.col / 4 * 4 + 4 < columns
    ensures var u := AfterPut(font, columns, t, 9);
            && |t.cells[t.row]| == columns && Position(u) == Position(t) && u.col == to && u.offset == t.offset
            && LineBecomes(t, u, t.cells[t.row][..t.col] + BlankOf(to - t.col) + t.cells[t.row][to..])
  {
    TabIsSpaces(font, columns, t, to - t.col);
    SpacesMean(font, columns, t, to - t.col, to);
  }

  /** A tab that reaches the end of the line exactly writes its spaces and breaks the line. */
  lemma TabBreaks(font: Font, columns: nat, t: Text)
    requires Shaped(t, columns) && font(32).Glyph? && t.col / 4 * 4 + 4 == columns
    ensures var u := AfterPut(font, columns, t, 9);
            && |t.cells[t.row]| == columns && Position(u) == Position(t) + 1 && u.col == 0
            && Position(t) < |Sheet(u)| && Sheet(u)[Position(t)] == t.cells[t.row][..t.col] + BlankOf(columns - t.col)
  {
    var n, line := columns - 1 - t.col, t.cells[t.row];
    TabIsSpaces(font, columns, t, n + 1);
    SpacesMean(font, columns, t, n, columns - 1);
    OneMoreSpace(font, columns, t, n);
    LineBroken(font, columns, AfterSpaces(font, columns, t, n), SPACE, line[..t.col] + BlankOf(n) + line[columns - 1..]);
    LastCell(line, t.col, columns);
  }

  lemma OneMoreSpace(font: Font, columns: nat, t: Text, n: nat)
    requires Shaped(t, columns)
    ensures AfterSpaces(font, columns, t, n + 1) == AfterPut(font, columns, AfterSpaces(font, columns, t, n), SPACE)
  {
  }

  /** The line that is left when its last cell is written. */
  lemma LineBroken(font: Font, columns: nat, t: Text, c: Codepoint, line: Line)
    requires Shaped(t, columns) && !Control(c) && font(c).Glyph? && t.col + 1 == columns == |line|
    requires Position(t) < |Sheet(t)| && Sheet(t)[Position(t)] == line
    ensures var u := AfterPut(font, columns, t, c);
            && Position(u) == Position(t) + 1 && u.col == 0
            && Position(t) < |Sheet(u)| && Sheet(u)[Position(t)] == line[columns - 1 := c]
  {
    assert t.cells[t.row] == line;
    WrapMeans(font, columns, t, c);
  }

  lemma LastCell(line: Line, at: nat, columns: nat)
    requires at < columns == |line|
    ensures (line[..at] + BlankOf(columns - 1 - at) + line[columns - 1..])[columns - 1 := 32] == line[..at] + BlankOf(columns - at)
  {
  }

  // ----------------------------------------------------------------
  // What can be shown
  // ----------------------------------------------------------------

  /** No bit of the cell is set. */
  predicate Unmarked(g: Glyph)
    requires g.Glyph?
  {
    forall dx, dy :: 0 <= dx < CELL_WIDTH && 0 <= dy < CELL_HEIGHT ==> !Marked(g)(dx, dy)
  }

  /** A code point of one cell, or one without a glyph; what counts as empty has an empty glyph. */
  predicate Plain(font: Font, c: Codepoint) {
    font(c).NoGlyph? || (font(c).width == CELL_WIDTH && c != CONTINUATION && (Blank(c) ==> Unmarked(font(c))))
  }

  predicate PlainText(font: Font, text: seq<Codepoint>) {
    Plain(font, SPACE) && forall i :: 0 <= i < |text| ==> text[i] in {BACKSPACE, TAB, NEWLINE, RETURN} || Plain(font, text[i])
  }

  /** White ink on black paper can be told apart, whatever the channels. */
  lemma InkShows(k: Channels)
    ensures Pack(WHITE, k) != Pack(BLACK, k)
  {
    var white, black := WHITE, BLACK;
    BlueOf(white, 255, k);
    BlueOf(black, 0, k);
    FullChannel(k.blue);
  }

  lemma BlueOf(c: Color, blue: nat, k: Channels)
    requires c % 256 == blue
    ensures Pack(c, k).blue == ChannelPack(blue, k.blue)
  {
  }

  lemma FullChannel(bits: Bits)
    ensures ChannelPack(255, bits) != ChannelPack(0, bits)
  {
  }
}
