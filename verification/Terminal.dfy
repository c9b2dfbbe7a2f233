/**
  The graphics terminal's scrollback (source/terminal/terminal.c): a ring of 1024 lines, a
  view that can be moved into it, and a screen that is shifted and patched rather than
  redrawn. Rows of cells are values here; the screen is the Screen of Display.
 */
module Terminal {
  import opened Basics
  import opened Pictures
  import opened Display

  const CELL_WIDTH := 8
  const CELL_HEIGHT := 16
  const HISTORY := 1024      // TERMINAL_SCROLLBACK_LINES
  const CONTINUATION := 0xFFFF_FFFF
  const SPACE := 32

  type Codepoint = nat

  type Line = seq<Codepoint>

  /** A glyph of the font: its width in pixels and its rows of two bytes. */
  datatype Glyph = NoGlyph | Glyph(width: nat, rows: seq<byte>)

  const GLYPH_STRIDE := 2

  function Marked(g: Glyph): (nat, nat) -> bool
    requires g.Glyph?
  {
    BitsOf(g.rows, GLYPH_STRIDE)
  }

  type Font = Codepoint -> Glyph

  ghost predicate FontFits(font: Font) {
    forall c :: font(c).Glyph? ==> font(c).width < TWO32
  }

  // ----------------------------------------------------------------
  // Text as pixels
  // ----------------------------------------------------------------

  predicate Blank(c: Codepoint) {
    c == 0 || c == SPACE || c == CONTINUATION
  }

  /** The glyph in column n of a line sets the pixel (x, dy) of its row. */
  predicate Marks(font: Font, line: Line, n: nat, x: int, dy: int)
    requires n < |line|
  {
    var g := font(line[n]);
    !Blank(line[n]) && g.Glyph? && CELL_WIDTH * n <= x < CELL_WIDTH * n + g.width && 0 <= dy && Marked(g)(x - CELL_WIDTH * n, dy)
  }

  /** Some glyph in the columns before n does. */
  predicate Written(font: Font, line: Line, n: nat, x: int, dy: int)
    requires n <= |line|
  {
    n > 0 && (Written(font, line, n - 1, x, dy) || Marks(font, line, n - 1, x, dy))
  }

  datatype Style = Style(font: Font, foreground: Pixel, background: Pixel)

  function RowPixel(style: Style, line: Line, x: int, dy: int): Pixel {
    if Written(style.font, line, |line|, x, dy) then style.foreground else style.background
  }

  /** What a full redraw of these rows leaves at (x, y): text, and background below it. */
  function Page(style: Style, view: seq<Line>, x: int, y: int): Pixel {
    if 0 <= y < CELL_HEIGHT * |view| then RowPixel(style, view[y / CELL_HEIGHT], x, y % CELL_HEIGHT) else style.background
  }

  /** The glyph in column j has a dot at pixel x of line dy, read from its two-byte rows. */
  predicate Dotted(font: Font, line: Line, j: nat, x: int, dy: nat)
    requires j < |line|
  {
    && line[j] !in {0, 32, 0xFFFF_FFFF} && font(line[j]).Glyph?
    && 8 * j <= x < 8 * j + font(line[j]).width
    && var dx, rows := x - 8 * j, font(line[j]).rows;
       2 * dy + dx / 8 < |rows| && DotSet(rows[2 * dy + dx / 8], dx)
  }

  lemma MarksDotted(font: Font, line: Line, j: nat, x: int, dy: nat)
    requires j < |line|
    ensures Marks(font, line, j, x, dy) <==> Dotted(font, line, j, x, dy)
  {
    var g := font(line[j]);
    if g.Glyph? && CELL_WIDTH * j <= x {
      var dx := x - CELL_WIDTH * j;
      if dy * GLYPH_STRIDE + dx / 8 < |g.rows| {
        DotRead(g.rows, GLYPH_STRIDE, dx, dy, dy * GLYPH_STRIDE + dx / 8);
      }
    }
  }

  lemma {:induction false} WrittenDotted(font: Font, line: Line, n: nat, x: int, dy: nat)
    requires n <= |line|
    ensures Written(font, line, n, x, dy) <==> exists j :: 0 <= j < n && Dotted(font, line, j, x, dy)
  {
    if n > 0 {
      WrittenDotted(font, line, n - 1, x, dy);
      MarksDotted(font, line, n - 1, x, dy);
    }
  }

  /** A page shows ink exactly at the dots of the glyphs of its lines. */
  lemma PageDots(style: Style, view: seq<Line>, r: nat, x: int, dy: nat)
    requires r < |view| && dy < 16
    ensures Page(style, view, x, 16 * r + dy) ==
            if exists j :: 0 <= j < |view[r]| && Dotted(style.font, view[r], j, x, dy) then style.foreground else style.background
  {
    assert (16 * r + dy) / CELL_HEIGHT == r && (16 * r + dy) % CELL_HEIGHT == dy;
    WrittenDotted(style.font, view[r], |view[r]|, x, dy);
  }

  /** How many whole cells fit, up to the size of the terminal's tables. */
  function ColumnsIn(width: nat): (n: nat)
    ensures CELL_WIDTH * n <= width
  {
    if width / CELL_WIDTH > 256 then 256 else width / CELL_WIDTH
  }

  function RowsIn(height: nat): (n: nat)
    ensures CELL_HEIGHT * n <= height && (height >= CELL_HEIGHT ==> n > 0)
  {
    if height / CELL_HEIGHT > 128 then 128 else height / CELL_HEIGHT
  }

  function BlankOf(columns: nat): (l: Line)
    ensures |l| == columns && forall i :: 0 <= i < columns ==> l[i] == SPACE
  {
    seq(columns, i requires 0 <= i < columns => SPACE)
  }

  /** Line i has its columns. */
  predicate Wide(lines: seq<Line>, i: nat, columns: nat)
    requires i < |lines|
  {
    |lines[i]| == columns
  }

  predicate AllWide(lines: seq<Line>, columns: nat) {
    forall i :: 0 <= i < |lines| ==> Wide(lines, i, columns)
  }

  function BlankRows(rows: nat, columns: nat): (s: seq<Line>)
    ensures |s| == rows && forall i :: 0 <= i < rows ==> s[i] == BlankOf(columns)
  {
    seq(rows, _ => BlankOf(columns))
  }

  lemma {:induction false} BlankLine(font: Font, line: Line, n: nat, x: int, dy: int)
    requires n <= |line| && forall i :: 0 <= i < |line| ==> Blank(line[i])
    ensures !Written(font, line, n, x, dy)
  {
    if n > 0 {
      BlankLine(font, line, n - 1, x, dy);
    }
  }

  // ----------------------------------------------------------------
  // The ring
  // ----------------------------------------------------------------

  /** Line i of a ring of count lines, the newest before head. */
  predicate KeptLine(s: seq<Line>, slots: seq<Line>, head: nat, count: nat, i: nat)
    requires |slots| == HISTORY && head < HISTORY && i < count == |s| && count <= HISTORY
  {
    s[i] == slots[(head + HISTORY - count + i) % HISTORY]
  }

  predicate IsKept(s: seq<Line>, slots: seq<Line>, head: nat, count: nat)
    requires |slots| == HISTORY && head < HISTORY && count <= HISTORY
  {
    |s| == count && forall i :: 0 <= i < count ==> KeptLine(s, slots, head, count, i)
  }

  lemma KeptExists(slots: seq<Line>, head: nat, count: nat)
    requires |slots| == HISTORY && head < HISTORY && count <= HISTORY
    ensures exists s :: IsKept(s, slots, head, count)
  {
    var s := seq(count, i requires 0 <= i < count => slots[(head + HISTORY - count + i) % HISTORY]);
    assert IsKept(s, slots, head, count);
  }

  /** The lines of the ring, oldest first. */
  ghost function Kept(slots: seq<Line>, head: nat, count: nat): (s: seq<Line>)
    requires |slots| == HISTORY && head < HISTORY && count <= HISTORY
    ensures |s| == count
  {
    KeptExists(slots, head, count);
    var s :| IsKept(s, slots, head, count);
    s
  }

  lemma KeptAt(slots: seq<Line>, head: nat, count: nat, i: nat)
    requires |slots| == HISTORY && head < HISTORY && i < count <= HISTORY
    ensures Kept(slots, head, count)[i] == slots[(head + HISTORY - count + i) % HISTORY]
  {
    assert KeptLine(Kept(slots, head, count), slots, head, count, i);
  }

  lemma Wrapped(x: nat)
    requires x < 2 * HISTORY
    ensures x % HISTORY == if x < HISTORY then x else x - HISTORY
  {
  }

  function NextHead(head: nat): nat {
    (head + 1) % HISTORY
  }

  /** scrollback_push_top_row while there is room */
  lemma PushGrows(slots: seq<Line>, head: nat, count: nat, line: Line)
    requires |slots| == HISTORY && head < HISTORY && count < HISTORY
    ensures NextHead(head) < HISTORY && Kept(slots[head := line], NextHead(head), count + 1) == Kept(slots, head, count) + [line]
  {
    var now, wanted := Kept(slots[head := line], NextHead(head), count + 1), Kept(slots, head, count) + [line];
    Wrapped(head + 1);
    forall i | 0 <= i < count + 1
      ensures now[i] == wanted[i]
    {
      Wrapped(NextHead(head) + HISTORY - (count + 1) + i);
      Wrapped(head + HISTORY - count + i);
      KeptAt(slots[head := line], NextHead(head), count + 1, i);
      if i < count {
        KeptAt(slots, head, count, i);
      }
    }
  }

  /** scrollback_push_top_row when the ring is full: the oldest line is overwritten. */
  lemma PushTurns(slots: seq<Line>, head: nat, line: Line)
    requires |slots| == HISTORY && head < HISTORY
    ensures NextHead(head) < HISTORY && Kept(slots[head := line], NextHead(head), HISTORY) == Kept(slots, head, HISTORY)[1..] + [line]
  {
    var now, wanted := Kept(slots[head := line], NextHead(head), HISTORY), Kept(slots, head, HISTORY)[1..] + [line];
    Wrapped(head + 1);
    forall i | 0 <= i < HISTORY
      ensures now[i] == wanted[i]
    {
      Wrapped(NextHead(head) + i);
      KeptAt(slots[head := line], NextHead(head), HISTORY, i);
      if i + 1 < HISTORY {
        Wrapped(head + i + 1);
        KeptAt(slots, head, HISTORY, i + 1);
      }
    }
  }

  /** The last HISTORY lines of everything pushed. */
  function Last(pushed: seq<Line>): seq<Line> {
    if |pushed| <= HISTORY then pushed else pushed[|pushed| - HISTORY..]
  }

  lemma LastPush(pushed: seq<Line>, line: Line)
    ensures Last(pushed + [line]) == (if |Last(pushed)| == HISTORY then Last(pushed)[1..] else Last(pushed)) + [line]
  {
  }

  // ----------------------------------------------------------------
  // Moving the view
  // ----------------------------------------------------------------

  /** Row r of v is its line of lines, when the view is offset lines back. */
  predicate ViewRow(v: seq<Line>, lines: seq<Line>, rows: nat, offset: nat, r: nat)
    requires rows + offset <= |lines| && r < rows == |v|
  {
    v[r] == lines[|lines| - offset - rows + r]
  }

  predicate IsView(v: seq<Line>, lines: seq<Line>, rows: nat, offset: nat)
    requires rows + offset <= |lines|
  {
    |v| == rows && forall r :: 0 <= r < rows ==> ViewRow(v, lines, rows, offset, r)
  }

  lemma ViewExists(lines: seq<Line>, rows: nat, offset: nat)
    requires rows + offset <= |lines|
    ensures exists v :: IsView(v, lines, rows, offset)
  {
    assert IsView(lines[|lines| - offset - rows..|lines| - offset], lines, rows, offset);
  }

  /** The rows shown when the view is offset lines back. */
  ghost function View(lines: seq<Line>, rows: nat, offset: nat): (v: seq<Line>)
    requires rows + offset <= |lines|
    ensures |v| == rows
  {
    ViewExists(lines, rows, offset);
    var v :| IsView(v, lines, rows, offset);
    v
  }

  lemma ViewIs(lines: seq<Line>, rows: nat, offset: nat)
    requires rows + offset <= |lines|
    ensures View(lines, rows, offset) == lines[|lines| - offset - rows..|lines| - offset]
  {
    forall r | 0 <= r < rows
      ensures View(lines, rows, offset)[r] == lines[|lines| - offset - rows + r]
    {
      assert ViewRow(View(lines, rows, offset), lines, rows, offset, r);
    }
  }

  lemma ViewAt(lines: seq<Line>, rows: nat, offset: nat, offset': nat, r: nat)
    requires rows + offset <= |lines| && rows + offset' <= |lines| && r < rows
    ensures 0 <= r - (offset' - offset) < rows ==>
              View(lines, rows, offset')[r] == View(lines, rows, offset)[r - (offset' - offset)]
  {
    ViewIs(lines, rows, offset);
    ViewIs(lines, rows, offset');
  }

  /** The row a pixel line belongs to moves with a shift by whole rows. */
  lemma RowOf(y: int, d: int)
    ensures (y - CELL_HEIGHT * d) / CELL_HEIGHT == y / CELL_HEIGHT - d
    ensures (y - CELL_HEIGHT * d) % CELL_HEIGHT == y % CELL_HEIGHT
  {
  }

  /** The rows exposed by a shift of d rows. */
  function ExposedFrom(d: int, rows: nat): int {
    if d > 0 then 0 else rows + d
  }

  function ExposedTo(d: int, rows: nat): int {
    if d > 0 then d else rows
  }

  /** A page whose rows lo..hi are still background. */
  function PageExcept(style: Style, view: seq<Line>, lo: int, hi: int, x: int, y: int): Pixel {
    if lo <= y / CELL_HEIGHT < hi then style.background else Page(style, view, x, y)
  }

  /** Moving the pixels of the old view gives the new view in every row that is not exposed. */
  lemma ShiftPage(style: Style, lines: seq<Line>, rows: nat, offset: nat, offset': nat, x: int, y: int, p: Picture)
    requires rows + offset <= |lines| && rows + offset' <= |lines| && 0 <= y
    requires var d := offset' - offset;
             && -(rows as int) < d < rows && d != 0
             && p(x, y) == Page(style, View(lines, rows, offset), x, y)
             && (0 <= y - CELL_HEIGHT * d < CELL_HEIGHT * rows ==>
                   p(x, y - CELL_HEIGHT * d) == Page(style, View(lines, rows, offset), x, y - CELL_HEIGHT * d))
    ensures var d := offset' - offset;
            ShiftAt(p, 0, CELL_HEIGHT * rows, CELL_HEIGHT * d, style.background, x, y)
            == PageExcept(style, View(lines, rows, offset'), ExposedFrom(d, rows), ExposedTo(d, rows), x, y)
  {
    var d := offset' - offset;
    RowOf(y, d);
    if 0 <= y < CELL_HEIGHT * rows && 0 <= y / CELL_HEIGHT - d < rows {
      ViewAt(lines, rows, offset, offset', y / CELL_HEIGHT);
    }
  }

  /** The same for every pixel of a screen of w by h. */
  lemma ShiftAll(style: Style, lines: seq<Line>, rows: nat, offset: nat, offset': nat, p: Picture, q: Picture, w: nat, h: nat)
    requires rows + offset <= |lines| && rows + offset' <= |lines| && CELL_HEIGHT * rows <= h
    requires -(rows as int) < offset' - offset < rows && offset' != offset
    requires forall x, y {:trigger p(x, y)} :: 0 <= x < w && 0 <= y < h ==> p(x, y) == Page(style, View(lines, rows, offset), x, y)
    requires q == Shifted(p, 0, CELL_HEIGHT * rows, CELL_HEIGHT * (offset' - offset), style.background)
    ensures var d := offset' - offset;
            forall x, y {:trigger q(x, y)} :: 0 <= x < w && 0 <= y < h ==>
              q(x, y) == PageExcept(style, View(lines, rows, offset'), ExposedFrom(d, rows), ExposedTo(d, rows), x, y)
  {
    var d := offset' - offset;
    forall x, y | 0 <= x < w && 0 <= y < h
      ensures q(x, y) == PageExcept(style, View(lines, rows, offset'), ExposedFrom(d, rows), ExposedTo(d, rows), x, y)
    {
      var y' := y - CELL_HEIGHT * d;
      assert 0 <= y' < CELL_HEIGHT * rows ==> p(x, y') == Page(style, View(lines, rows, offset), x, y');
      ShiftPage(style, lines, rows, offset, offset', x, y, p);
      assert q(x, y) == ShiftAt(p, 0, CELL_HEIGHT * rows, CELL_HEIGHT * d, style.background, x, y);
    }
  }

  // ----------------------------------------------------------------
  // The terminal
  // ----------------------------------------------------------------

  class Graphics {
    const screen: Screen
    const columns: nat
    const rows: nat
    const font: Font
    const foreground: Color
    const background: Color
    const scrollback: array<Line>
    const cells: array<Line>
    var head: nat
    var count: nat
    var offset: nat                 // scrollback_view_offset
    ghost var pushed: seq<Line>     // every line that ever left the screen

    /** terminal_init on a graphics screen of at least one row; the tables are static memory. */
    constructor (screen: Screen, font: Font, scrollback: array<Line>, cells: array<Line>)
      requires screen.Valid() && screen.height >= CELL_HEIGHT && FontFits(font)
      requires scrollback.Length == HISTORY && cells.Length == RowsIn(screen.height) && scrollback != cells
      modifies cells
      ensures Valid() && this.screen == screen && this.font == font && this.scrollback == scrollback && this.cells == cells
      ensures foreground == WHITE && background == BLACK && columns == ColumnsIn(screen.width) && rows == RowsIn(screen.height)
      ensures pushed == [] && offset == 0 && cells[..] == BlankRows(rows, columns)
    {
      this.screen, this.font, this.scrollback, this.cells := screen, font, scrollback, cells;
      columns, rows := ColumnsIn(screen.width), RowsIn(screen.height);
      foreground, background := WHITE, BLACK;
      new;
      BlankCells();
      head, count, offset, pushed := 0, 0, 0, [];
      NothingRecorded();
    }

    method BlankCells()
      requires cells.Length == rows
      modifies cells
      ensures forall i :: 0 <= i < rows ==> |cells[i]| == columns
      ensures cells[..] == BlankRows(rows, columns)
    {
      var r := 0;
      while r < rows
        invariant r <= rows && forall i :: 0 <= i < r ==> cells[i] == BlankOf(columns)
      {
        cells[r] := BlankOf(columns);
        r := r + 1;
      }
    }

    function Colours(): Style {
      Style(font, Pack(foreground, screen.look.channels), Pack(background, screen.look.channels))
    }

    /** History, then the live rows. */
    ghost function Lines(): (s: seq<Line>)
      requires scrollback.Length == HISTORY && head < HISTORY && count <= HISTORY
      reads this`head, this`count, scrollback, cells
      ensures |s| == count + cells.Length
    {
      Kept(scrollback[..], head, count) + cells[..]
    }

    ghost predicate Fits() {
      && 0 < rows && CELL_HEIGHT * rows <= screen.height && CELL_WIDTH * columns <= screen.width
      && scrollback.Length == HISTORY && cells.Length == rows && scrollback != cells
      && FontFits(font)
    }

    ghost predicate Valid()
      reads this`head, this`count, this`offset, this`pushed, scrollback, cells, screen, screen.shadow, screen.device, screen.background
    {
      Fits() && screen.Valid() && Recorded() && offset <= count
    }

    /** The ring holds the last lines pushed, and every line has its columns. */
    ghost predicate Recorded()
      requires scrollback.Length == HISTORY
      reads this`head, this`count, this`pushed, scrollback, cells
    {
      && head < HISTORY && count <= HISTORY
      && AllWide(Lines(), columns)
      && Kept(scrollback[..], head, count) == Last(pushed)
    }

    lemma NothingRecorded()
      requires scrollback.Length == HISTORY && head == 0 && count == 0 && pushed == []
      requires forall i :: 0 <= i < cells.Length ==> |cells[i]| == columns
      ensures Recorded()
    {
    }

    /** The lines the view shows: a window on the last 1024 lines pushed and the live rows. */
    ghost function Window(): (v: seq<Line>)
      requires Valid()
      reads this`head, this`count, this`offset, this`pushed, scrollback, cells, screen, screen.shadow, screen.device, screen.background
      ensures |v| == rows
    {
      View(Last(pushed) + cells[..], rows, offset)
    }

    /** Rows lo..hi are still background, everything else shows the page. */
    ghost predicate ShownExcept(view: seq<Line>, lo: int, hi: int)
      reads screen
    {
      forall x, y {:trigger screen.canvas(x, y)} :: screen.Visible(x, y) ==>
        screen.canvas(x, y) == PageExcept(Colours(), view, lo, hi, x, y)
    }

    ghost predicate Shown(view: seq<Line>)
      reads screen
    {
      forall x, y {:trigger screen.canvas(x, y)} :: screen.Visible(x, y) ==> screen.canvas(x, y) == Page(Colours(), view, x, y)
    }

    /** visible_row_data */
    method VisibleRow(r: nat) returns (line: Line)
      requires Valid() && r < rows
      ensures line == Window()[r] && |line| == columns
    {
      var total := count + rows;
      var end := total - offset;
      var start := end - rows;
      var logical := start + r;
      ViewIs(Last(pushed) + cells[..], rows, offset);
      assert Window()[r] == Lines()[logical] && Wide(Lines(), logical, columns);
      if logical < count {
        var oldest := (head + HISTORY - count) % HISTORY;
        SameSlot(head, count, logical);
        KeptAt(scrollback[..], head, count, logical);
        line := scrollback[(oldest + logical) % HISTORY];
      } else {
        line := cells[logical - count];
      }
    }

    lemma SameSlot(head: nat, count: nat, i: nat)
      requires head < HISTORY && count <= HISTORY && i < count
      ensures ((head + HISTORY - count) % HISTORY + i) % HISTORY == (head + HISTORY - count + i) % HISTORY
    {
    }

    // ----------------------------------------------------------------
    // Rendering
    // ----------------------------------------------------------------

    /** The canvas is p, with the columns before n of a line inked into row r. */
    ghost predicate InkedUpTo(p: Picture, line: Line, n: nat, r: nat)
      requires n <= |line|
      reads screen
    {
      forall x, y {:trigger screen.canvas(x, y)} :: screen.Visible(x, y) ==>
        screen.canvas(x, y) == if y / CELL_HEIGHT == r && Written(font, line, n, x, y % CELL_HEIGHT) then Colours().foreground else p(x, y)
    }

    /** graphics_draw_glyph_pixels */
    method DrawGlyph(line: Line, n: nat, r: nat, ghost p: Picture)
      requires Fits() && screen.Valid() && n < |line| == columns && r < rows && InkedUpTo(p, line, n, r)
      modifies screen, screen.shadow, screen.device, screen.background
      ensures screen.Valid() && InkedUpTo(p, line, n + 1, r)
    {
      var c := line[n];
      if Blank(c) || font(c).NoGlyph? {
        return;
      }
      var g := font(c);
      ghost var before := screen.canvas;
      var b := Bitmap(g.rows, GLYPH_STRIDE, foreground, background, false);
      screen.DrawMonoBitmap(CELL_WIDTH * n, CELL_HEIGHT * r, g.width, CELL_HEIGHT, b);
      forall x, y | screen.Visible(x, y)
        ensures screen.canvas(x, y) == if y / CELL_HEIGHT == r && Written(font, line, n + 1, x, y % CELL_HEIGHT) then Colours().foreground else p(x, y)
      {
        GlyphAt(before, screen.canvas, n, r, g, b, x, y);
      }
    }

    /** A transparent glyph sets exactly its marked pixels. */
    lemma GlyphAt(before: Picture, after: Picture, n: nat, r: nat, g: Glyph, b: Bitmap, x: int, y: int)
      requires Fits() && n < columns && r < rows && screen.Visible(x, y) && screen.width < TWO32 && screen.height < TWO32
      requires g.Glyph? && g.width < TWO32 && b == Bitmap(g.rows, GLYPH_STRIDE, foreground, background, false)
      requires after == Draw(before, DrawMono(CELL_WIDTH * n, CELL_HEIGHT * r, g.width, CELL_HEIGHT, b), screen.width, screen.height, screen.look.channels)
      ensures after(x, y) == if && y / CELL_HEIGHT == r && CELL_WIDTH * n <= x < CELL_WIDTH * n + g.width
                                && Marked(g)(x - CELL_WIDTH * n, y % CELL_HEIGHT)
                             then Colours().foreground else before(x, y)
    {
      if g.width > 0 {
        ClipMeans(CELL_WIDTH * n, g.width, screen.width);
        ClipMeans(CELL_HEIGHT * r, CELL_HEIGHT, screen.height);
        var clip := Clip(CELL_WIDTH * n, CELL_HEIGHT * r, g.width, CELL_HEIGHT, screen.width, screen.height);
        assert after(x, y) == StampAt(before, clip, StencilOf(b), screen.look.channels, x, y);
        assert y / CELL_HEIGHT == r ==> y - CELL_HEIGHT * r == y % CELL_HEIGHT;
      }
    }

    /** graphics_render_row_data */
    method RenderRow(line: Line, r: nat, ghost p: Picture)
      requires Fits() && screen.Valid() && |line| == columns && r < rows && p == screen.canvas
      modifies screen, screen.shadow, screen.device, screen.background
      ensures screen.Valid() && InkedUpTo(p, line, |line|, r)
    {
      var n := 0;
      while n < columns
        invariant n <= columns && screen.Valid() && InkedUpTo(p, line, n, r)
      {
        DrawGlyph(line, n, r, p);
        n := n + 1;
      }
    }

    /** Draws row lo of the view onto background. */
    method DrawRow(lo: nat, hi: nat)
      requires Valid() && lo < hi <= rows && ShownExcept(Window(), lo, hi)
      modifies screen, screen.shadow, screen.device, screen.background
      ensures Valid() && ShownExcept(Window(), lo + 1, hi)
    {
      var line := VisibleRow(lo);
      ghost var p, view := screen.canvas, Window();
      RenderRow(line, lo, p);
      forall x, y | screen.Visible(x, y)
        ensures screen.canvas(x, y) == PageExcept(Colours(), view, lo + 1, hi, x, y)
      {
        assert p(x, y) == PageExcept(Colours(), view, lo, hi, x, y);
      }
    }

    method DrawRows(from: nat, hi: nat)
      requires Valid() && from <= hi <= rows && ShownExcept(Window(), from, hi)
      modifies screen, screen.shadow, screen.device, screen.background
      ensures Valid() && Shown(Window())
    {
      var lo := from;
      while lo < hi
        invariant from <= lo <= hi && Valid() && ShownExcept(Window(), lo, hi)
      {
        DrawRow(lo, hi);
        lo := lo + 1;
      }
    }

    /** graphics_redraw_view */
    method RedrawView()
      requires Valid()
      modifies screen, screen.shadow, screen.device, screen.background
      ensures Valid() && Shown(Window())
    {
      screen.BeginUpdate();
      ClearRows();
      DrawRows(0, rows);
      screen.EndUpdate();
    }

    method ClearRows()
      requires Valid()
      modifies screen, screen.shadow, screen.device, screen.background
      ensures Valid() && ShownExcept(Window(), 0, rows)
    {
      ghost var p := screen.canvas;
      screen.ClearScreen(background);
      forall x, y | screen.Visible(x, y)
        ensures screen.canvas(x, y) == Colours().background
      {
        assert screen.canvas(x, y) == FillAt(p, Full(screen.width, screen.height), Colours().background, x, y);
      }
    }

    /** terminal_clear: live rows blank, history kept, view back at the bottom. */
    method ClearAll()
      requires Valid()
      modifies this`offset, cells, screen, screen.shadow, screen.device, screen.background
      ensures Valid() && offset == 0 && Shown(Window()) && cells[..] == BlankRows(rows, columns)
    {
      ghost var was := Lines();
      offset := 0;
      BlankCells();
      forall i | 0 <= i < |Lines()|
        ensures Wide(Lines(), i, columns)
      {
        assert i < count ==> Wide(was, i, columns) && Lines()[i] == was[i];
      }
      ClearRows();
      LiveWindow();
      forall x, y | screen.Visible(x, y)
        ensures screen.canvas(x, y) == Page(Colours(), cells[..], x, y)
      {
        BlankLine(font, BlankOf(columns), columns, x, y % CELL_HEIGHT);
        assert screen.canvas(x, y) == PageExcept(Colours(), Window(), 0, rows, x, y);
      }
    }

    // ----------------------------------------------------------------
    // Moving the view
    // ----------------------------------------------------------------

    /** The framebuffer move of graphics_shift_view, from the view at offset `was`. */
    method ShiftPixels(ghost was: nat, d: int)
      requires Valid() && was <= count && d == offset - was && d != 0 && -(rows as int) < d < rows
      requires Shown(View(Last(pushed) + cells[..], rows, was))
      modifies screen, screen.shadow, screen.device, screen.background
      ensures Valid() && ShownExcept(Window(), ExposedFrom(d, rows), ExposedTo(d, rows))
    {
      ghost var p, lines := screen.canvas, Last(pushed) + cells[..];
      screen.ShiftRegion(0, CELL_HEIGHT * rows, CELL_HEIGHT * d, background);
      ShiftAll(Colours(), lines, rows, was, offset, p, screen.canvas, screen.width, screen.height);
    }

    /** graphics_shift_view */
    method ShiftView(ghost was: nat, d: int)
      requires Valid() && was <= count && d == offset - was
      requires Shown(View(Last(pushed) + cells[..], rows, was))
      modifies screen, screen.shadow, screen.device, screen.background
      ensures Valid() && Shown(Window())
    {
      if d == 0 {
        return;
      }
      if d >= rows || -d >= rows {
        RedrawView();
      } else {
        ShiftAndPatch(was, d);
      }
    }

    method ShiftAndPatch(ghost was: nat, d: int)
      requires Valid() && was <= count && d == offset - was && d != 0 && -(rows as int) < d < rows
      requires Shown(View(Last(pushed) + cells[..], rows, was))
      modifies screen, screen.shadow, screen.device, screen.background
      ensures Valid() && Shown(Window())
    {
      screen.BeginUpdate();
      ShiftPixels(was, d);
      DrawRows(ExposedFrom(d, rows), ExposedTo(d, rows));
      screen.EndUpdate();
    }

    /**
      terminal_set_scrollback_offset, once the text cursor has been erased: the shifted and
      patched screen is pixel for pixel what a full redraw of the new view leaves.
     */
    method SetOffset(newOffset: nat)
      requires Valid() && Shown(Window())
      modifies this`offset, screen, screen.shadow, screen.device, screen.background
      ensures Valid() && offset == (if newOffset > count then count else newOffset)
      ensures Shown(Window())
    {
      var target := if newOffset > count then count else newOffset;
      if target == offset {
        return;
      }
      var was := offset;
      offset := target;
      ShiftView(was, target - was);
    }

    // ----------------------------------------------------------------
    // New lines
    // ----------------------------------------------------------------

    /** scrollback_push_top_row */
    method PushTopRow()
      requires Valid() && offset == 0
      modifies this`head, this`count, this`pushed, scrollback
      ensures Valid() && pushed == old(pushed) + [cells[0]]
    {
      CellsFit();
      StoreTopRow(Lines(), cells[0]);
      head := (head + 1) % HISTORY;
      if count < HISTORY {
        count := count + 1;
      }
      pushed := pushed + [cells[0]];
      LinesFit();
    }

    /** A row of the live cells gets new contents. */
    method StoreRow(r: nat, line: Line)
      requires Valid() && r < rows && |line| == columns
      modifies cells
      ensures Valid() && cells[..] == old(cells[..])[r := line]
    {
      ghost var was := Lines();
      cells[r] := line;
      forall i | 0 <= i < |Lines()|
        ensures Wide(Lines(), i, columns)
      {
        assert i != count + r ==> Wide(was, i, columns) && Lines()[i] == was[i];
      }
    }

    lemma CellsFit()
      requires Fits() && Recorded()
      ensures forall j :: 0 <= j < rows ==> |cells[j]| == columns
    {
      forall j | 0 <= j < rows
        ensures |cells[j]| == columns
      {
        assert Wide(Lines(), count + j, columns) && Lines()[count + j] == cells[j];
      }
    }

    lemma LinesFit()
      requires Fits() && head < HISTORY && count <= HISTORY
      requires forall j :: 0 <= j < rows ==> |cells[j]| == columns
      requires forall i :: 0 <= i < count ==> |Kept(scrollback[..], head, count)[i]| == columns
      ensures AllWide(Lines(), columns)
    {
    }

    /** The store, with what the ring will hold once head and count have moved on. */
    method StoreTopRow(ghost was: seq<Line>, ghost top: Line)
      requires Fits() && Recorded() && was == Lines() && top == cells[0] && |top| == columns
      modifies scrollback
      ensures var n := if count < HISTORY then count + 1 else count;
              && NextHead(head) < HISTORY
              && Kept(scrollback[..], NextHead(head), n) == Last(pushed + [top])
              && forall i :: 0 <= i < n ==> |Kept(scrollback[..], NextHead(head), n)[i]| == columns
    {
      ghost var slots, kept := scrollback[..], Kept(scrollback[..], head, count);
      LastPush(pushed, top);
      if count < HISTORY {
        PushGrows(slots, head, count, top);
      } else {
        PushTurns(slots, head, top);
      }
      scrollback[head] := cells[0];
      assert scrollback[..] == slots[head := top];
      forall i | 0 <= i < |kept|
        ensures |kept[i]| == columns
      {
        assert Wide(was, i, columns) && kept[i] == was[i];
      }
    }

    /** The cell loops of terminal_scroll. */
    method ShiftCells()
      requires Fits()
      modifies cells
      ensures cells[..] == old(cells[1..]) + [BlankOf(columns)]
    {
      var r := 1;
      while r < rows
        invariant 1 <= r <= rows
        invariant forall i :: 0 <= i < rows ==> cells[i] == if i < r - 1 then old(cells[..])[i + 1] else old(cells[i])
      {
        cells[r - 1] := cells[r];
        r := r + 1;
      }
      cells[rows - 1] := BlankOf(columns);
    }

    /** terminal_scroll outside a batch, with the text cursor erased: one line leaves, the screen follows. */
    method Scroll()
      requires Valid() && offset == 0 && Shown(Window())
      modifies this`head, this`count, this`pushed, scrollback, cells, screen, screen.shadow, screen.device, screen.background
      ensures Valid() && offset == 0 && Shown(Window())
      ensures pushed == old(pushed) + [old(cells[0])] && cells[..] == old(cells[1..]) + [BlankOf(columns)]
    {
      LiveWindow();
      PushTopRow();
      ghost var view := cells[..];
      ShiftLines();
      ScrollPixels(view);
      LiveWindow();
    }

    /** How far back the view can go. */
    lemma Depth()
      requires Valid()
      ensures count == if |pushed| > HISTORY then HISTORY else |pushed|
    {
    }

    lemma LiveWindow()
      requires Valid() && offset == 0
      ensures Window() == cells[..]
    {
      ViewIs(Last(pushed) + cells[..], rows, offset);
    }

    method ShiftLines()
      requires Valid() && offset == 0
      modifies cells
      ensures Valid() && cells[..] == old(cells[1..]) + [BlankOf(columns)]
    {
      ghost var was := Lines();
      ShiftCells();
      forall i | 0 <= i < |Lines()|
        ensures Wide(Lines(), i, columns)
      {
        if count <= i < count + rows - 1 {
          assert Wide(was, i + 1, columns) && Lines()[i] == was[i + 1];
        } else if i < count {
          assert Wide(was, i, columns) && Lines()[i] == was[i];
        }
      }
    }

    /** rootdisplay_scroll_up by one row of cells. */
    method ScrollPixels(ghost view: seq<Line>)
      requires Valid() && |view| == rows && Shown(view)
      modifies screen, screen.shadow, screen.device, screen.background
      ensures Valid() && Shown(view[1..] + [BlankOf(columns)])
    {
      ghost var p := screen.canvas;
      screen.ScrollScreen(CELL_HEIGHT, background);
      forall x, y | screen.Visible(x, y)
        ensures screen.canvas(x, y) == Page(Colours(), view[1..] + [BlankOf(columns)], x, y)
      {
        var h := screen.height;
        if CELL_HEIGHT >= h {
          assert screen.canvas(x, y) == FillAt(p, Full(screen.width, h), Colours().background, x, y);
        } else {
          assert screen.canvas(x, y) == ShiftAt(p, 0, h, -(CELL_HEIGHT as int), Colours().background, x, y);
        }
        ScrolledPage(Colours(), view, columns, x, y);
      }
    }
  }

  /** The page one line further on. */
  lemma ScrolledPage(style: Style, view: seq<Line>, columns: nat, x: int, y: int)
    requires view != [] && 0 <= y
    ensures Page(style, view[1..] + [BlankOf(columns)], x, y) == Page(style, view, x, y + CELL_HEIGHT)
    ensures y + CELL_HEIGHT >= CELL_HEIGHT * |view| ==> Page(style, view, x, y + CELL_HEIGHT) == style.background
  {
    var next := view[1..] + [BlankOf(columns)];
    RowOf(y, -1);
    if y < CELL_HEIGHT * |view| {
      if y / CELL_HEIGHT == |view| - 1 {
        BlankLine(style.font, BlankOf(columns), columns, x, y % CELL_HEIGHT);
      } else {
        assert next[y / CELL_HEIGHT] == view[y / CELL_HEIGHT + 1];
      }
    }
  }
}
