/**
  Pixels and pictures for the display stack (source/display/rootdisplay_legacy_impl.c):
  packed colours, what each drawing call does to a picture, and the mouse cursor over it.
 */
module Pictures {
  import opened Basics

  // ----------------------------------------------------------------
  // Colours
  // ----------------------------------------------------------------

  /** Width in bits of a colour channel of the framebuffer. */
  type Bits = b: nat | 1 <= b <= 8 witness 8

  datatype Channels = Channels(red: Bits, green: Bits, blue: Bits)

  /** A packed pixel, as its three disjoint fields; the other bits of the word are zero. */
  datatype Pixel = Pixel(red: nat, green: nat, blue: nat)

  /** A 0xRRGGBB colour of the drawing calls; higher bits are ignored. */
  type Color = nat

  /** channel_mask */
  function Mask(bits: Bits): (m: nat)
    ensures m <= 255 && (bits != 8 ==> 1 <= m <= 127)
  {
    match bits
    case 1 => 1
    case 2 => 3
    case 3 => 7
    case 4 => 15
    case 5 => 31
    case 6 => 63
    case 7 => 127
    case 8 => 255
  }

  /** From 0..255 to 0..m, rounded. */
  function ScaleDown(value: nat, m: nat): (r: nat)
    ensures value < 256 ==> r <= m
  {
    (value * m + 127) / 255
  }

  /** From 0..m to 0..255, rounded, in 8 bits. */
  function ScaleUp(raw: nat, m: nat): (r: nat)
    requires m > 0
    ensures r < 256
  {
    (raw * 255 + m / 2) / m % 256
  }

  function ChannelPack(value: nat, bits: Bits): (r: nat)
    requires value < 256
    ensures r <= Mask(bits)
  {
    if bits == 8 then value else ScaleDown(value, Mask(bits))
  }

  function ChannelUnpack(raw: nat, bits: Bits): (r: nat)
    ensures r < 256
  {
    if bits == 8 then raw % 256 else ScaleUp(raw, Mask(bits))
  }

  /** Reading a channel and writing it back gives the same bits, for every width. */
  lemma ChannelRoundTrip(raw: nat, bits: Bits)
    requires raw <= Mask(bits)
    ensures ChannelPack(ChannelUnpack(raw, bits), bits) == raw
  {
    if bits != 8 {
      Rounding(raw, Mask(bits));
    }
  }

  /** Scaling up with rounding and back down with rounding is exact while the mask is below 128. */
  lemma Rounding(raw: nat, m: nat)
    requires 1 <= m <= 127 && raw <= m
    ensures ScaleDown(ScaleUp(raw, m), m) == raw
  {
    var u, p := ScaledUp(raw, m);
    ScaledDown(u, p, raw, m);
  }

  lemma ScaledUp(raw: nat, m: nat) returns (u: nat, p: nat)
    requires 1 <= m <= 127 && raw <= m
    ensures ScaleUp(raw, m) == u && p == u * m && p <= raw * 255 + m / 2 < p + m
  {
    var x := raw * 255 + m / 2;
    u, p := Quotient(x, m);
    assert ScaleUp(raw, m) == x / m % 256;
  }

  lemma ScaledDown(u: nat, p: nat, raw: nat, m: nat)
    requires 1 <= m <= 127 && p == u * m && p <= raw * 255 + m / 2 < p + m
    ensures ScaleDown(u, m) == raw
  {
  }

  lemma Quotient(x: nat, m: nat) returns (u: nat, p: nat)
    requires m > 0 && x < 256 * m
    ensures x / m == u < 256 && p == u * m && p <= x < p + m
  {
    u := x / m;
    p := u * m;
    assert x == m * u + x % m;
    if u >= 256 {
      Product(m, u);
    }
  }

  lemma Product(m: nat, u: nat)
    requires u >= 256
    ensures m * u >= 256 * m
  {
  }

  /** pack_physical_color */
  function Pack(c: Color, k: Channels): Pixel {
    Pixel(ChannelPack(c / 0x1_0000 % 256, k.red), ChannelPack(c / 0x100 % 256, k.green), ChannelPack(c % 256, k.blue))
  }

  /** rootdisplay_rgb */
  function Rgb(red: nat, green: nat, blue: nat): Color {
    red * 0x1_0000 + green * 0x100 + blue
  }

  /** unpack_physical_color */
  function Unpack(p: Pixel, k: Channels): Color {
    Rgb(ChannelUnpack(p.red, k.red), ChannelUnpack(p.green, k.green), ChannelUnpack(p.blue, k.blue))
  }

  /** Only bits of the RGB mask are set. */
  predicate InMask(p: Pixel, k: Channels) {
    p.red <= Mask(k.red) && p.green <= Mask(k.green) && p.blue <= Mask(k.blue)
  }

  lemma PackInMask(c: Color, k: Channels)
    ensures InMask(Pack(c, k), k)
  {
  }

  lemma PackUnpack(p: Pixel, k: Channels)
    requires InMask(p, k)
    ensures Pack(Unpack(p, k), k) == p
  {
    var r, g, b := ChannelUnpack(p.red, k.red), ChannelUnpack(p.green, k.green), ChannelUnpack(p.blue, k.blue);
    RgbFields(r, g, b);
    ChannelRoundTrip(p.red, k.red);
    ChannelRoundTrip(p.green, k.green);
    ChannelRoundTrip(p.blue, k.blue);
  }

  lemma RgbFields(r: nat, g: nat, b: nat)
    requires r < 256 && g < 256 && b < 256
    ensures Rgb(r, g, b) / 0x1_0000 % 256 == r && Rgb(r, g, b) / 0x100 % 256 == g && Rgb(r, g, b) % 256 == b
  {
    assert Rgb(r, g, b) / 0x1_0000 == r;
    assert Rgb(r, g, b) / 0x100 == r * 256 + g;
  }

  /** packed ^ physical_rgb_mask() */
  function Inverted(p: Pixel, k: Channels): Pixel
    requires InMask(p, k)
  {
    Pixel(Mask(k.red) - p.red, Mask(k.green) - p.green, Mask(k.blue) - p.blue)
  }

  // ----------------------------------------------------------------
  // Pictures
  // ----------------------------------------------------------------

  type Picture = (int, int) -> Pixel

  /** x0 <= x < x1 and y0 <= y < y1. */
  datatype Rect = Rect(x0: int, y0: int, x1: int, y1: int)

  predicate In(r: Rect, x: int, y: int) {
    r.x0 <= x < r.x1 && r.y0 <= y < r.y1
  }

  /** r lies inside s. */
  predicate Within(r: Rect, s: Rect) {
    s.x0 <= r.x0 && s.y0 <= r.y0 && r.x1 <= s.x1 && r.y1 <= s.y1
  }

  /** The smallest rectangle around both. */
  function Joined(r: Rect, s: Rect): (t: Rect)
    ensures Within(r, t) && Within(s, t)
  {
    Rect(if s.x0 < r.x0 then s.x0 else r.x0, if s.y0 < r.y0 then s.y0 else r.y0,
         if s.x1 > r.x1 then s.x1 else r.x1, if s.y1 > r.y1 then s.y1 else r.y1)
  }

  /** The clipped end of x + size in 32 bits: a sum that wraps below its start also clips. */
  function ClipEnd(x: nat, size: nat, limit: nat): nat {
    var end := (x + size) % TWO32;
    if end < x || end > limit then limit else end
  }

  /** The rectangle a drawing call covers on a screen of w by h pixels. */
  function Clip(x: nat, y: nat, width: nat, height: nat, w: nat, h: nat): Rect {
    if width == 0 || height == 0 || x >= w || y >= h then Rect(0, 0, 0, 0)
    else Rect(x, y, ClipEnd(x, width, w), ClipEnd(y, height, h))
  }

  /** The wrap-around test clips exactly as unbounded addition would. */
  lemma ClipMeans(x: nat, size: nat, limit: nat)
    requires x < limit < TWO32 && 0 < size < TWO32
    ensures ClipEnd(x, size, limit) == if x + size > limit then limit else x + size
    ensures x < ClipEnd(x, size, limit) <= limit
  {
  }

  ghost function Filled(p: Picture, r: Rect, c: Pixel): Picture {
    (x, y) => FillAt(p, r, c, x, y)
  }

  function FillAt(p: Picture, r: Rect, c: Pixel, x: int, y: int): Pixel {
    if In(r, x, y) then c else p(x, y)
  }

  ghost function InvertedIn(p: Picture, r: Rect, k: Channels): Picture {
    (x, y) => InvertAt(p, r, k, x, y)
  }

  function InvertAt(p: Picture, r: Rect, k: Channels, x: int, y: int): Pixel {
    if In(r, x, y) && InMask(p(x, y), k) then Inverted(p(x, y), k) else p(x, y)
  }

  /** Bit px of row py of a monochrome bitmap, most significant bit first; reading past the bytes is not modelled. */
  function BitSet(bytes: seq<byte>, stride: nat, px: nat, py: nat): bool {
    var i := py * stride + px / 8;
    i < |bytes| && bytes[i] as int / Power(7 - px % 8) % 2 == 1
  }

  function Power(n: nat): (r: nat)
    ensures r > 0
  {
    if n == 0 then 1 else 2 * Power(n - 1)
  }

  /** The bits of a bitmap by column and row. */
  function BitsOf(bytes: seq<byte>, stride: nat): (nat, nat) -> bool {
    (px: nat, py: nat) => BitSet(bytes, stride, px, py)
  }

  /** A bitmap as the caller hands it over. */
  datatype Bitmap = Bitmap(bytes: seq<byte>, stride: nat, foreground: Color, background: Color, solid: bool)

  /** The bits to set and what to set them to. */
  datatype Stencil = Stencil(mark: (nat, nat) -> bool, foreground: Color, background: Color, solid: bool)

  function StencilOf(b: Bitmap): Stencil {
    Stencil(BitsOf(b.bytes, b.stride), b.foreground, b.background, b.solid)
  }

  /** What the bitmap drawn with its corner at (x0, y0) leaves at (x, y). */
  function Stamp(b: Stencil, x0: int, y0: int, x: int, y: int, k: Channels, under: Pixel): Pixel {
    if x < x0 || y < y0 then under else
    if b.mark(x - x0, y - y0) then Pack(b.foreground, k)
    else if b.solid then Pack(b.background, k) else under
  }

  ghost function Stamped(p: Picture, r: Rect, b: Stencil, k: Channels): Picture {
    (x, y) => StampAt(p, r, b, k, x, y)
  }

  function StampAt(p: Picture, r: Rect, b: Stencil, k: Channels, x: int, y: int): Pixel {
    if In(r, x, y) then Stamp(b, r.x0, r.y0, x, y, k, p(x, y)) else p(x, y)
  }

  /** Rows top..bottom move by delta (down if positive); rows moved in from outside are filled. */
  ghost function Shifted(p: Picture, top: int, bottom: int, delta: int, c: Pixel): Picture {
    (x, y) => ShiftAt(p, top, bottom, delta, c, x, y)
  }

  function ShiftAt(p: Picture, top: int, bottom: int, delta: int, c: Pixel, x: int, y: int): Pixel {
    if !(top <= y < bottom) then p(x, y) else if top <= y - delta < bottom then p(x, y - delta) else c
  }

  // ----------------------------------------------------------------
  // Drawing calls
  // ----------------------------------------------------------------

  datatype Call =
    | PutPixel(x: nat, y: nat, color: Color)
    | FillRect(x: nat, y: nat, width: nat, height: nat, color: Color)
    | InvertRect(x: nat, y: nat, width: nat, height: nat)
    | DrawMono(x: nat, y: nat, width: nat, height: nat, bitmap: Bitmap)
    | ScrollUp(rows: nat, color: Color)
    | ShiftVertical(y: nat, height: nat, delta: int, color: Color)
    | Clear(color: Color)

  predicate Nothing(x: nat, y: nat, width: nat, height: nat, w: nat, h: nat) {
    width == 0 || height == 0 || x >= w || y >= h
  }

  /** The last row, exclusive, of a region clipped to the screen. */
  function Bottom(y: nat, height: nat, h: nat): int
    requires y < h
  {
    if height > h - y then h else y + height
  }

  function Full(w: nat, h: nat): Rect {
    Rect(0, 0, w, h)
  }

  /** What a call does to a cursorless screen of w by h pixels. */
  ghost function Draw(p: Picture, call: Call, w: nat, h: nat, k: Channels): Picture {
    match call
    case PutPixel(x, y, color) =>
      if x >= w || y >= h then p else Filled(p, Rect(x, y, x + 1, y + 1), Pack(color, k))
    case FillRect(x, y, width, height, color) =>
      if Nothing(x, y, width, height, w, h) then p else Filled(p, Clip(x, y, width, height, w, h), Pack(color, k))
    case InvertRect(x, y, width, height) =>
      if Nothing(x, y, width, height, w, h) then p else InvertedIn(p, Clip(x, y, width, height, w, h), k)
    case DrawMono(x, y, width, height, bitmap) =>
      if Nothing(x, y, width, height, w, h) || bitmap.stride == 0 then p
      else Stamped(p, Clip(x, y, width, height, w, h), StencilOf(bitmap), k)
    case ScrollUp(rows, color) =>
      if rows == 0 then p else if rows >= h then Filled(p, Full(w, h), Pack(color, k))
      else Shifted(p, 0, h, -(rows as int), Pack(color, k))
    case ShiftVertical(y, height, delta, color) =>
      if height == 0 || delta == 0 || y >= h then p else
      var bottom := Bottom(y, height, h);
      if delta >= bottom - y || -delta >= bottom - y then Filled(p, Rect(0, y, w, bottom), Pack(color, k))
      else Shifted(p, y, bottom, delta, Pack(color, k))
    case Clear(color) => Filled(p, Full(w, h), Pack(color, k))
  }

  // ----------------------------------------------------------------
  // What each call leaves at each pixel
  // ----------------------------------------------------------------

  /** The bits of a byte from left to right. */
  const BITS: seq<nat> := [128, 64, 32, 16, 8, 4, 2, 1]

  lemma BitWeights(n: nat)
    requires n < 8
    ensures Power(7 - n) == BITS[n]
  {
    assert Power(0) == 1 && Power(1) == 2 && Power(2) == 4 && Power(3) == 8;
    assert Power(4) == 16 && Power(5) == 32 && Power(6) == 64 && Power(7) == 128;
  }

  /** The dot px of byte b is set. */
  predicate DotSet(b: byte, px: nat) {
    b / BITS[px % 8] % 2 == 1
  }

  /** A pixel of the screen that the rectangle of a call covers, in unbounded arithmetic. */
  predicate Covers(x: nat, y: nat, width: nat, height: nat, px: int, py: int, w: nat, h: nat) {
    x <= px < x + width && px < w && y <= py < y + height && py < h
  }

  lemma ClipCovers(x: nat, y: nat, width: nat, height: nat, px: int, py: int, w: nat, h: nat)
    requires w < TWO32 && h < TWO32 && width < TWO32 && height < TWO32
    ensures Covers(x, y, width, height, px, py, w, h) <==>
            !Nothing(x, y, width, height, w, h) && In(Clip(x, y, width, height, w, h), px, py)
  {
    if !Nothing(x, y, width, height, w, h) {
      ClipMeans(x, width, w);
      ClipMeans(y, height, h);
    }
  }

  /**
    rootdisplay_draw_mono_bitmap: dot (px, py) of the bitmap is bit 7 - px % 8 of byte
    py * stride + px / 8. Where it is set the screen shows the foreground; elsewhere the
    background if the bitmap is solid, and what was there if not.
   */
  lemma MonoDot(p: Picture, x: nat, y: nat, width: nat, height: nat, b: Bitmap, px: nat, py: nat, w: nat, h: nat, k: Channels)
    requires w < TWO32 && h < TWO32 && width < TWO32 && height < TWO32 && b.stride > 0
    requires Covers(x, y, width, height, x + px, y + py, w, h) && py * b.stride + px / 8 < |b.bytes|
    ensures Draw(p, DrawMono(x, y, width, height, b), w, h, k)(x + px, y + py) ==
            if DotSet(b.bytes[py * b.stride + px / 8], px) then Pack(b.foreground, k)
            else if b.solid then Pack(b.background, k) else p(x + px, y + py)
  {
    DotRead(b.bytes, b.stride, px, py, py * b.stride + px / 8);
    StencilDrawn(p, x, y, width, height, b, px, py, w, h, k);
  }

  lemma DotRead(bytes: seq<byte>, stride: nat, px: nat, py: nat, i: nat)
    requires i == py * stride + px / 8 < |bytes|
    ensures BitSet(bytes, stride, px, py) <==> DotSet(bytes[i], px)
  {
    BitWeights(px % 8);
  }

  lemma StencilDrawn(p: Picture, x: nat, y: nat, width: nat, height: nat, b: Bitmap, px: nat, py: nat, w: nat, h: nat, k: Channels)
    requires w < TWO32 && h < TWO32 && width < TWO32 && height < TWO32 && b.stride > 0
    requires Covers(x, y, width, height, x + px, y + py, w, h)
    ensures Draw(p, DrawMono(x, y, width, height, b), w, h, k)(x + px, y + py) ==
            if BitsOf(b.bytes, b.stride)(px, py) then Pack(b.foreground, k)
            else if b.solid then Pack(b.background, k) else p(x + px, y + py)
  {
    ClipCovers(x, y, width, height, x + px, y + py, w, h);
  }

  /** Every pixel that is no dot of the bitmap stays. */
  lemma MonoElsewhere(p: Picture, x: nat, y: nat, width: nat, height: nat, b: Bitmap, px: int, py: int, w: nat, h: nat, k: Channels)
    requires w < TWO32 && h < TWO32 && width < TWO32 && height < TWO32
    requires !Covers(x, y, width, height, px, py, w, h) || b.stride == 0
    ensures Draw(p, DrawMono(x, y, width, height, b), w, h, k)(px, py) == p(px, py)
  {
    ClipCovers(x, y, width, height, px, py, w, h);
  }

  /** rootdisplay_put_pixel and rootdisplay_fill_rect, pixel by pixel. */
  lemma FillPixel(p: Picture, x: nat, y: nat, width: nat, height: nat, c: Color, px: int, py: int, w: nat, h: nat, k: Channels)
    requires w < TWO32 && h < TWO32 && width < TWO32 && height < TWO32
    ensures Draw(p, FillRect(x, y, width, height, c), w, h, k)(px, py) ==
            if Covers(x, y, width, height, px, py, w, h) then Pack(c, k) else p(px, py)
    ensures Draw(p, PutPixel(x, y, c), w, h, k)(px, py) ==
            if px == x < w && py == y < h then Pack(c, k) else p(px, py)
  {
    ClipCovers(x, y, width, height, px, py, w, h);
  }

  /** rootdisplay_invert_rect: inverting twice restores every pixel, and no covered pixel stays as it was. */
  lemma InvertPixel(p: Picture, x: nat, y: nat, width: nat, height: nat, px: int, py: int, w: nat, h: nat, k: Channels)
    requires w < TWO32 && h < TWO32 && width < TWO32 && height < TWO32 && InMask(p(px, py), k)
    ensures var q := Draw(p, InvertRect(x, y, width, height), w, h, k);
            && InMask(q(px, py), k)
            && Draw(q, InvertRect(x, y, width, height), w, h, k)(px, py) == p(px, py)
            && (q(px, py) != p(px, py) <==> Covers(x, y, width, height, px, py, w, h))
  {
    ClipCovers(x, y, width, height, px, py, w, h);
    MaskOdd(k.red);
  }

  /** All ones is an odd number, so no channel value is its own inverse. */
  lemma MaskOdd(bits: Bits)
    ensures Mask(bits) % 2 == 1
  {
  }

  /** rootdisplay_scroll_up and rootdisplay_shift_vertical: each row shows the one `delta` rows before it, or the fill. */
  lemma ShiftPixel(p: Picture, rows: nat, y: nat, height: nat, delta: int, c: Color, px: int, py: int, w: nat, h: nat, k: Channels)
    requires 0 <= px < w && 0 <= py < h
    ensures Draw(p, ScrollUp(rows, c), w, h, k)(px, py) == if py + rows < h then p(px, py + rows) else Pack(c, k)
    ensures Draw(p, ShiftVertical(y, height, delta, c), w, h, k)(px, py) ==
            if !(y <= py < y + height) then p(px, py)
            else if y <= py - delta < y + height && py - delta < h then p(px, py - delta) else Pack(c, k)
  {
  }

  /** Packing keeps, in each channel, the nearest value that the channel can show. */
  lemma PackNearest(red: nat, green: nat, blue: nat, k: Channels)
    requires red < 256 && green < 256 && blue < 256
    ensures var p := Pack(red * 0x1_0000 + green * 0x100 + blue, k);
            Nearest(red, p.red, k.red) && Nearest(green, p.green, k.green) && Nearest(blue, p.blue, k.blue)
  {
    RgbFields(red, green, blue);
    ChannelNearest(red, k.red);
    ChannelNearest(green, k.green);
    ChannelNearest(blue, k.blue);
  }

  /** raw of 0..mask is as near as can be to value of 0..255. */
  predicate Nearest(value: nat, raw: nat, bits: Bits) {
    raw <= Mask(bits) && -127 <= 255 * raw - value * Mask(bits) <= 127
  }

  lemma ChannelNearest(value: nat, bits: Bits)
    requires value < 256
    ensures Nearest(value, ChannelPack(value, bits), bits)
  {
  }

  /** The picture after a list of drawing calls. */
  ghost function DrawAll(p: Picture, calls: seq<Call>, w: nat, h: nat, k: Channels): Picture {
    if calls == [] then p else Draw(DrawAll(p, calls[..|calls| - 1], w, h, k), calls[|calls| - 1], w, h, k)
  }

  // ----------------------------------------------------------------
  // The mouse cursor
  // ----------------------------------------------------------------

  const CURSOR_WIDTH := 12
  const CURSOR_HEIGHT := 19
  const BLACK: Color := 0
  const WHITE: Color := 0xFF_FFFF

  const CURSOR_SHAPE: seq<string> :=
    [ "B           ",
      "BB          ",
      "BWB         ",
      "BWWB        ",
      "BWWWB       ",
      "BWWWWB      ",
      "BWWWWWB     ",
      "BWWWWWWB    ",
      "BWWWWWWWB   ",
      "BWWWWBBBBB  ",
      "BWWBWB      ",
      "BWB BWB     ",
      "BB  BWB     ",
      "B    BWB    ",
      "     BWB    ",
      "     BWB    ",
      "      BWB   ",
      "      BWB   ",
      "       BB   " ]

  datatype Cursor = Cursor(x: int, y: int)

  /** The cursor's rectangle, not clipped. */
  function Box(c: Cursor): Rect {
    Rect(c.x, c.y, c.x + CURSOR_WIDTH, c.y + CURSOR_HEIGHT)
  }

  /** What the cursor looks like on this screen. */
  datatype Look = Look(channels: Channels, shape: seq<string>)

  function ShapeAt(shape: seq<string>, lx: int, ly: int): char {
    if 0 <= ly < |shape| && 0 <= lx < |shape[ly]| then shape[ly][lx] else ' '
  }

  /** The cursor covers (x, y) with ink. */
  predicate Inked(c: Cursor, look: Look, x: int, y: int) {
    In(Box(c), x, y) && ShapeAt(look.shape, x - c.x, y - c.y) != ' '
  }

  function Ink(c: Cursor, look: Look, x: int, y: int): Pixel {
    Pack(if ShapeAt(look.shape, x - c.x, y - c.y) == 'B' then BLACK else WHITE, look.channels)
  }

  /** A picture with the cursor over it, if it is on. */
  ghost function WithCursor(p: Picture, on: bool, c: Cursor, look: Look): Picture {
    (x, y) => CursorAt(p, on, c, look, x, y)
  }

  /** Pixel lx, ly of the cursor shape: black, white, or what is underneath. */
  lemma CursorPixel(p: Picture, c: Cursor, look: Look, lx: nat, ly: nat)
    requires lx < 12 && ly < 19 && ly < |look.shape| && lx < |look.shape[ly]|
    ensures WithCursor(p, true, c, look)(c.x + lx, c.y + ly) ==
            var letter := look.shape[ly][lx];
            if letter == ' ' then p(c.x + lx, c.y + ly) else Pack(if letter == 'B' then 0 else 0xFF_FFFF, look.channels)
  {
  }

  /** Outside its box, or when it is off, the cursor shows nothing. */
  lemma CursorElsewhere(p: Picture, on: bool, c: Cursor, look: Look, x: int, y: int)
    requires !on || !(c.x <= x < c.x + 12 && c.y <= y < c.y + 19)
    ensures WithCursor(p, on, c, look)(x, y) == p(x, y)
  {
  }

  function CursorAt(p: Picture, on: bool, c: Cursor, look: Look, x: int, y: int): Pixel {
    if on && Inked(c, look, x, y) then Ink(c, look, x, y) else p(x, y)
  }
}
