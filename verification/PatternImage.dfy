// Examples/Common/ExamplePattern.c: where the parts of the test pattern lie, and what a frame's
// image is.

module PatternImage {
  import opened Arithmetic
  import opened Bits

  const BLACK_Y: nat := 64
  const WHITE_Y: nat := 940
  const NO_COLOUR: nat := 512
  const LIGHT_MIN: nat := 600
  const DARK_MAX: nat := 300
  const CODE_BLOCKS: nat := 36
  const NUM_DIGITS: nat := 8

  // ---------------------------------------------------------------- Layout

  datatype Layout = Layout(greyLines: nat, barWidth: nat, block: nat, scale: nat,
                           boxX: nat, boxY: nat, boxWidth: nat, boxLines: nat,
                           codeX: nat, codeY: nat, codeLines: nat, digitsY: nat)

  function AtLeast(x: nat, least: nat): nat {
    if x > least then x else least
  }

  function Even(x: nat): (e: nat)
    ensures e <= x < e + 2 && e % 2 == 0
  {
    x / 2 * 2
  }

  /** Room for the code and the digits, and a margin. */
  function BoxWidth(block: nat, scale: nat): nat {
    var digitsWidth := NUM_DIGITS * 6 * scale - scale;
    var codeWidth := CODE_BLOCKS * block;
    Even(2 * block + AtLeast(codeWidth, digitsWidth) + 1)
  }

  function LayoutOf(width: nat, height: nat): Layout {
    var block := AtLeast(Even(width / 96), 4);
    var scale := AtLeast(height / 120, 1);
    var boxX := Even(width / 32);
    var boxY := Even(height / 16);
    var codeY := boxY + 2 * scale;
    var codeLines := AtLeast(Even(height / 36), 4);
    var digitsY := codeY + codeLines + 2 * scale;
    Layout(Even(height * 2 / 3), width / 16, block, scale, boxX, boxY, BoxWidth(block, scale),
           digitsY + 7 * scale + 2 * scale - boxY, boxX + block, codeY, codeLines, digitsY)
  }

  /** The sizes for which there is a pattern: the box fits in the grey scale. */
  predicate IsSize(width: nat, height: nat) {
    var l := LayoutOf(width, height);
    width >= 320 && height >= 240 && width % 2 == 0
    && l.boxX + l.boxWidth <= width && l.boxY + l.boxLines <= l.greyLines
  }

  /** An image of 320 by 240 pixels or more, of even width, has a pattern exactly when its digits
      are not too wide for it. */
  lemma SizeIsSupported(width: nat, height: nat)
    requires width >= 320 && height >= 240 && width % 2 == 0
    ensures var l := LayoutOf(width, height);
      IsSize(width, height) <==> l.boxX + 2 * l.block + Even(47 * l.scale + 1) <= width
  {
    LinesFit(height);
    CodeFitsWidth(width);
    BlockIsEven(width);
    BoxLinesAre(width, height);
    BoxWidthIs(width, height);
    PartsAre(width, height);
    hide LayoutOf, AtLeast, BoxWidth, Even;
    var l := LayoutOf(width, height);
    WidthFits(l.boxX, l.block, l.scale, width);
  }

  lemma BoxLinesAre(width: nat, height: nat)
    ensures var l := LayoutOf(width, height);
      l.boxY + l.boxLines == Even(height / 16) + 13 * AtLeast(height / 120, 1)
                             + AtLeast(Even(height / 36), 4)
  {
    hide AtLeast, Even;
  }

  lemma BoxWidthIs(width: nat, height: nat)
    ensures var l := LayoutOf(width, height);
      l.boxWidth == BoxWidth(l.block, l.scale)
  {
    hide AtLeast, Even, BoxWidth;
  }

  lemma PartsAre(width: nat, height: nat)
    ensures var l := LayoutOf(width, height);
      && l.greyLines == Even(height * 2 / 3)
      && l.boxX == Even(width / 32) && l.block == AtLeast(Even(width / 96), 4)
  {
    hide AtLeast, Even;
  }

  lemma BlockIsEven(width: nat)
    ensures AtLeast(Even(width / 96), 4) % 2 == 0
  {
  }

  lemma WidthFits(boxX: nat, block: nat, scale: nat, width: nat)
    requires block % 2 == 0 && boxX + 38 * block <= width
    ensures boxX + BoxWidth(block, scale) <= width
       <==> boxX + 2 * block + Even(47 * scale + 1) <= width
  {
  }

  // The parts down the image, whatever its width.
  lemma LinesFit(height: nat)
    requires height >= 240
    ensures Even(height / 16) + 13 * AtLeast(height / 120, 1) + AtLeast(Even(height / 36), 4)
         <= Even(height * 2 / 3)
  {
    var a, b, c := height / 16, height / 120, height / 36;
    assert 16 * a <= height && 120 * b <= height && 36 * c <= height;
    assert 3 * (height * 2 / 3) >= 2 * height - 2;
  }

  lemma CodeFitsWidth(width: nat)
    requires width >= 320
    ensures Even(width / 32) + 38 * AtLeast(Even(width / 96), 4) <= width
  {
    var a, b := width / 32, width / 96;
    assert 32 * a <= width && 96 * b <= width;
  }

  /** A tall one has none. */
  lemma TallHasNoPattern()
    ensures !IsSize(320, 1000)
  {
  }

  /** The code lies in the box, and the digits below it. */
  ghost predicate IsLaidOut(l: Layout) {
    && l.block >= 4 && l.scale >= 1 && l.codeLines >= 4
    && l.codeX == l.boxX + l.block && l.codeX + CODE_BLOCKS * l.block + l.block <= l.boxX + l.boxWidth
    && l.codeX + 47 * l.scale + l.block <= l.boxX + l.boxWidth
    && l.boxY < l.codeY && l.codeY + l.codeLines < l.digitsY
    && l.digitsY + 7 * l.scale <= l.boxY + l.boxLines
  }

  lemma PartsAreLaidOut(width: nat, height: nat)
    ensures IsLaidOut(LayoutOf(width, height))
  {
    hide Even;
  }

  /** A reader that knows one size of the image finds the columns without the other, or the lines. */
  lemma CodeIsFound(width: nat, height: nat, otherWidth: nat, otherHeight: nat)
    ensures var l, c := LayoutOf(width, height), LayoutOf(width, otherHeight);
      l.codeX == c.codeX && l.block == c.block
    ensures var l, r := LayoutOf(width, height), LayoutOf(otherWidth, height);
      l.codeY == r.codeY && l.codeLines == r.codeLines
  {
    hide Even, AtLeast;
  }

  // ---------------------------------------------------------------- Rectangles

  datatype Rect = Rect(x: nat, y: nat, width: nat, lines: nat, luma: nat)

  predicate Covers(r: Rect, x: nat, y: nat) {
    r.x <= x < r.x + r.width && r.y <= y < r.y + r.lines
  }

  /** The luma at a place after rectangles are filled one after the other. */
  function Painted(rects: seq<Rect>, x: nat, y: nat, base: nat): nat {
    if rects == [] then base
    else
      var last := rects[|rects| - 1];
      if Covers(last, x, y) then last.luma else Painted(rects[..|rects| - 1], x, y, base)
  }

  lemma {:induction false} PaintedMore(a: seq<Rect>, b: seq<Rect>, x: nat, y: nat, base: nat)
    ensures Painted(a + b, x, y, base) == Painted(b, x, y, Painted(a, x, y, base))
    decreases |b|
  {
    hide Covers;
    if b == [] {
      assert a + b == a;
    } else {
      var last := |b| - 1;
      assert (a + b)[..|a + b| - 1] == a + b[..last];
      PaintedMore(a, b[..last], x, y, base);
    }
  }

  ghost predicate NoneCovers(rects: seq<Rect>, x: nat, y: nat) {
    forall i | 0 <= i < |rects| :: !Covers(rects[i], x, y)
  }

  lemma {:induction false} NotPainted(rects: seq<Rect>, x: nat, y: nat, base: nat)
    requires NoneCovers(rects, x, y)
    ensures Painted(rects, x, y, base) == base
    decreases |rects|
  {
    hide Covers;
    if rects != [] {
      NotPainted(rects[..|rects| - 1], x, y, base);
    }
  }

  // ---------------------------------------------------------------- The box

  /** The blocks of a number's code: its 32 lowest bits between marks. */
  function CodeOf(number: nat): (bits: seq<bool>)
    ensures |bits| == CODE_BLOCKS
  {
    [true, false] + BitsOf(number % W32, 32) + [false, true]
  }

  function CodeBlock(l: Layout, k: nat): Rect {
    Rect(l.codeX + k * l.block, l.codeY, l.block, l.codeLines, WHITE_Y)
  }

  /** The light ones of the first k blocks. */
  function CodeRects(l: Layout, code: seq<bool>, k: nat): seq<Rect>
    requires k <= |code|
  {
    if k == 0 then []
    else CodeRects(l, code, k - 1) + if code[k - 1] then [CodeBlock(l, k - 1)] else []
  }

  /** The lines of each digit, from the top; the font is five pixels wide. */
  const DIGITS: seq<seq<nat>> :=
    [[0x0E, 0x11, 0x13, 0x15, 0x19, 0x11, 0x0E], [0x04, 0x0C, 0x04, 0x04, 0x04, 0x04, 0x0E],
     [0x0E, 0x11, 0x01, 0x02, 0x04, 0x08, 0x1F], [0x1F, 0x02, 0x04, 0x02, 0x01, 0x11, 0x0E],
     [0x02, 0x06, 0x0A, 0x12, 0x1F, 0x02, 0x02], [0x1F, 0x10, 0x1E, 0x01, 0x01, 0x11, 0x0E],
     [0x06, 0x08, 0x10, 0x1E, 0x11, 0x11, 0x0E], [0x1F, 0x01, 0x02, 0x04, 0x08, 0x08, 0x08],
     [0x0E, 0x11, 0x11, 0x0E, 0x11, 0x11, 0x0E], [0x0E, 0x11, 0x11, 0x0F, 0x01, 0x02, 0x0C]]

  predicate IsGlyph(glyph: seq<nat>) {
    |glyph| == 7
  }

  function Glyph(digit: nat): (g: seq<nat>)
    requires digit < 10
    ensures IsGlyph(g)
  {
    DIGITS[digit]
  }

  predicate IsSet(glyph: seq<nat>, row: nat, col: nat)
    requires IsGlyph(glyph) && row < 7 && col < 5
  {
    glyph[row] / Pow2(4 - col) % 2 == 1
  }

  function GlyphPixel(l: Layout, d: nat, row: nat, col: nat): Rect {
    Rect(l.codeX + d * 6 * l.scale + col * l.scale, l.digitsY + row * l.scale, l.scale, l.scale,
         WHITE_Y)
  }

  /** The pixels of a row of digit d, as far as column cols. */
  function RowRects(l: Layout, d: nat, glyph: seq<nat>, row: nat, cols: nat): seq<Rect>
    requires IsGlyph(glyph) && row < 7 && cols <= 5
  {
    if cols == 0 then []
    else RowRects(l, d, glyph, row, cols - 1)
         + if IsSet(glyph, row, cols - 1) then [GlyphPixel(l, d, row, cols - 1)] else []
  }

  function GlyphRects(l: Layout, d: nat, glyph: seq<nat>, rows: nat): seq<Rect>
    requires IsGlyph(glyph) && rows <= 7
  {
    if rows == 0 then [] else GlyphRects(l, d, glyph, rows - 1) + RowRects(l, d, glyph, rows - 1, 5)
  }

  /** The last digits of a number, from the lowest, in the first so many places. */
  function DigitRects(l: Layout, number: nat, places: nat): seq<Rect> {
    if places == 0 then []
    else GlyphRects(l, places - 1, Glyph(number % 10), 7) + DigitRects(l, number / 10, places - 1)
  }

  function Black(l: Layout): Rect {
    Rect(l.boxX, l.boxY, l.boxWidth, l.boxLines, BLACK_Y)
  }

  function BoxRects(l: Layout, number: nat): seq<Rect> {
    [Black(l)] + CodeRects(l, CodeOf(number), CODE_BLOCKS) + DigitRects(l, number, NUM_DIGITS)
  }

  predicate InBox(l: Layout, x: nat, y: nat) {
    l.boxX <= x < l.boxX + l.boxWidth && l.boxY <= y < l.boxY + l.boxLines
  }

  /** All rectangles lie in the box, and in it below some line. */
  ghost predicate AreBelow(l: Layout, rects: seq<Rect>, line: nat) {
    forall i | 0 <= i < |rects| ::
      var r := rects[i];
      l.boxX <= r.x && r.x + r.width <= l.boxX + l.boxWidth
      && line <= r.y && r.y + r.lines <= l.boxY + l.boxLines
  }

  lemma BlockIsInBox(l: Layout, k: nat)
    requires IsLaidOut(l) && k < CODE_BLOCKS
    ensures AreBelow(l, [CodeBlock(l, k)], l.codeY)
  {
    MulMonotone(k + 1, CODE_BLOCKS, l.block);
  }

  lemma {:induction false} CodeIsInBox(l: Layout, code: seq<bool>, k: nat)
    requires IsLaidOut(l) && k <= |code| == CODE_BLOCKS
    ensures AreBelow(l, CodeRects(l, code, k), l.codeY)
  {
    hide IsLaidOut, CodeBlock;
    if k > 0 {
      CodeIsInBox(l, code, k - 1);
      BlockIsInBox(l, k - 1);
    }
  }

  lemma PixelIsInBox(l: Layout, d: nat, row: nat, col: nat)
    requires IsLaidOut(l) && d < NUM_DIGITS && row < 7 && col < 5
    ensures AreBelow(l, [GlyphPixel(l, d, row, col)], l.digitsY)
  {
    MulMonotone(6 * d + col + 1, 47, l.scale);
    MulMonotone(row + 1, 7, l.scale);
    PlaceIs(d, col, l.scale);
    PlaceFits(l, d * 6 * l.scale + col * l.scale, row * l.scale);
  }

  lemma PlaceFits(l: Layout, right: nat, down: nat)
    requires IsLaidOut(l) && right + l.scale <= 47 * l.scale && down + l.scale <= 7 * l.scale
    ensures AreBelow(l, [Rect(l.codeX + right, l.digitsY + down, l.scale, l.scale, WHITE_Y)],
                     l.digitsY)
  {
  }

  lemma PlaceIs(d: nat, col: nat, scale: nat)
    ensures d * 6 * scale + col * scale + scale == (6 * d + col + 1) * scale
  {
  }

  lemma {:induction false} RowIsInBox(l: Layout, d: nat, glyph: seq<nat>, row: nat, cols: nat)
    requires IsLaidOut(l) && d < NUM_DIGITS && IsGlyph(glyph) && row < 7 && cols <= 5
    ensures AreBelow(l, RowRects(l, d, glyph, row, cols), l.digitsY)
  {
    hide IsLaidOut, GlyphPixel, IsSet;
    if cols > 0 {
      RowIsInBox(l, d, glyph, row, cols - 1);
      PixelIsInBox(l, d, row, cols - 1);
    }
  }

  lemma {:induction false} GlyphIsInBox(l: Layout, d: nat, glyph: seq<nat>, rows: nat)
    requires IsLaidOut(l) && d < NUM_DIGITS && IsGlyph(glyph) && rows <= 7
    ensures AreBelow(l, GlyphRects(l, d, glyph, rows), l.digitsY)
  {
    hide IsLaidOut, RowRects;
    if rows > 0 {
      GlyphIsInBox(l, d, glyph, rows - 1);
      RowIsInBox(l, d, glyph, rows - 1, 5);
    }
  }

  lemma {:induction false} DigitsAreInBox(l: Layout, number: nat, places: nat)
    requires IsLaidOut(l) && places <= NUM_DIGITS
    ensures AreBelow(l, DigitRects(l, number, places), l.digitsY)
    decreases places
  {
    hide IsLaidOut, GlyphRects;
    if places > 0 {
      DigitsAreInBox(l, number / 10, places - 1);
      GlyphIsInBox(l, places - 1, Glyph(number % 10), 7);
    }
  }

  lemma NotCovered(l: Layout, rects: seq<Rect>, line: nat, x: nat, y: nat)
    requires AreBelow(l, rects, line) && l.boxY <= line && (!InBox(l, x, y) || y < line)
    ensures NoneCovers(rects, x, y)
  {
  }

  /** The box is drawn over what was there, and nowhere else. */
  lemma BoxCovers(l: Layout, number: nat, x: nat, y: nat, a: nat, b: nat)
    requires IsLaidOut(l)
    ensures InBox(l, x, y) ==>
              Painted(BoxRects(l, number), x, y, a) == Painted(BoxRects(l, number), x, y, b)
    ensures !InBox(l, x, y) ==> Painted(BoxRects(l, number), x, y, a) == a
  {
    CodeIsInBox(l, CodeOf(number), CODE_BLOCKS);
    DigitsAreInBox(l, number, NUM_DIGITS);
    hide CodeRects, DigitRects, CodeOf;
    var code, digits := CodeRects(l, CodeOf(number), CODE_BLOCKS), DigitRects(l, number, NUM_DIGITS);
    var all := [Black(l)] + code + digits;
    assert all == [Black(l)] + (code + digits);
    PaintedMore([Black(l)], code + digits, x, y, a);
    PaintedMore([Black(l)], code + digits, x, y, b);
    PaintedBlack(l, x, y, a);
    PaintedBlack(l, x, y, b);
    hide IsLaidOut, Painted, Black;
    if !InBox(l, x, y) {
      PaintedMore(code, digits, x, y, a);
      NotCovered(l, code, l.codeY, x, y);
      NotCovered(l, digits, l.digitsY, x, y);
      NotPainted(code, x, y, a);
      NotPainted(digits, x, y, a);
    }
  }

  lemma PaintedBlack(l: Layout, x: nat, y: nat, base: nat)
    ensures Painted([Black(l)], x, y, base) == if InBox(l, x, y) then BLACK_Y else base
  {
  }

  // ---------------------------------------------------------------- Images

  /** A colour's 10-bit samples. */
  datatype YCbCr = YCbCr(y: nat, cb: nat, cr: nat)

  /** The luma of the grey scale: seven bars from black to white. */
  function GreyAt(width: nat, x: nat): (luma: nat)
    requires x < width
    ensures BLACK_Y <= luma <= WHITE_Y
  {
    SevenBars(width, x);
    BLACK_Y + x * 7 / width * 146
  }

  lemma SevenBars(width: nat, x: nat)
    requires x < width
    ensures 0 <= x * 7 / width < 7
  {
    DivBounds(x * 7, width);
    var bar := x * 7 / width;
    if bar >= 7 {
      MulMonotone(7, bar, width);
    }
  }

  /** The colour bar at a column. */
  function BarColour(colours: seq<YCbCr>, width: nat, x: nat): YCbCr
    requires |colours| == 7 && x < width
  {
    SevenBars(width, x);
    colours[x * 7 / width]
  }

  /** The image that the pattern starts with. */
  function FirstLuma(colours: seq<YCbCr>, width: nat, height: nat, x: nat, y: nat): nat
    requires |colours| == 7 && x < width
  {
    if y < LayoutOf(width, height).greyLines then GreyAt(width, x)
    else BarColour(colours, width, x).y
  }

  /** The colour difference of a pair of pixels, in every frame. */
  function FirstColour(colours: seq<YCbCr>, width: nat, height: nat, p: nat, y: nat): YCbCr
    requires |colours| == 7 && 2 * p < width
  {
    if y < LayoutOf(width, height).greyLines then YCbCr(0, NO_COLOUR, NO_COLOUR)
    else BarColour(colours, width, 2 * p)
  }

  /** Where the moving bar is in a frame. */
  function BarAt(width: nat, number: nat): (x: nat)
    requires width > 0
    ensures x < width
  {
    number * 16 % W64 % width
  }

  predicate InBar(l: Layout, barX: nat, x: nat, y: nat) {
    y < l.greyLines && barX <= x < barX + l.barWidth
  }

  /** The image of a frame: the box over the bar over the first image. */
  function FrameLuma(colours: seq<YCbCr>, width: nat, height: nat, number: nat, x: nat,
                     y: nat): nat
    requires |colours| == 7 && x < width
  {
    var l := LayoutOf(width, height);
    if InBox(l, x, y) then Painted(BoxRects(l, number), x, y, BLACK_Y)
    else if InBar(l, BarAt(width, number), x, y) then WHITE_Y
    else FirstLuma(colours, width, height, x, y)
  }

  /** The bar goes on by 16 pixels a frame and starts again behind the last one. */
  lemma BarMoves(width: nat, number: nat)
    requires width > 0 && (number + 1) * 16 < W64
    ensures BarAt(width, 0) == 0
    ensures BarAt(width, number + 1) == (BarAt(width, number) + 16) % width
  {
    BarIs(width, 0);
    BarIs(width, number);
    BarIs(width, number + 1);
    hide BarAt;
    RestGoesOn(number * 16, width, 16);
    SmallRest(width);
  }

  lemma BarIs(width: nat, number: nat)
    requires width > 0 && number * 16 < W64
    ensures BarAt(width, number) == number * 16 % width
  {
    SmallTime(number * 16);
  }

  lemma SmallTime(x: nat)
    requires x < W64
    ensures x % W64 == x
  {
  }

  lemma SmallRest(width: nat)
    requires width > 0
    ensures 0 % width == 0
  {
    DivUnique(0, width, 0);
  }

  lemma RestGoesOn(x: nat, width: nat, more: nat)
    requires width > 0
    ensures (x + more) % width == (x % width + more) % width
  {
    var q, r := x / width, x % width;
    var k := (r + more) / width;
    DivBounds(x, width);
    DivBounds(r + more, width);
    assert (q + k) * width == width * q + width * k;
    DivUnique(x + more, width, q + k);
  }

  /** In the grey part, where the box is not, pixels are white just in the bar. */
  lemma BarIsShown(colours: seq<YCbCr>, width: nat, height: nat, number: nat, x: nat, y: nat)
    requires |colours| == 7 && x < width && number * 16 < W64
    requires var l := LayoutOf(width, height); y < l.greyLines && !InBox(l, x, y)
    ensures var from := number * 16 % width;
      FrameLuma(colours, width, height, number, x, y)
      == if from <= x < from + LayoutOf(width, height).barWidth then WHITE_Y else GreyAt(width, x)
  {
    hide LayoutOf, GreyAt, InBox, BoxRects, Painted;
  }

  /** Which frame was drawn last. */
  datatype Last = NotDrawn | Drawn(number: nat)

  function ImageLuma(colours: seq<YCbCr>, width: nat, height: nat, last: Last, x: nat, y: nat): nat
    requires |colours| == 7 && x < width
  {
    match last
    case NotDrawn => FirstLuma(colours, width, height, x, y)
    case Drawn(number) => FrameLuma(colours, width, height, number, x, y)
  }

  /** The luma where the bar is drawn, and where it was. */
  function BarDrawn(width: nat, height: nat, last: Last, number: nat, x: nat, y: nat, was: nat): nat
    requires x < width
  {
    var l := LayoutOf(width, height);
    if InBar(l, BarAt(width, number), x, y) then WHITE_Y
    else if last.Drawn? && InBar(l, BarAt(width, last.number), x, y) then GreyAt(width, x)
    else was
  }

  /** Restoring the bar's old place and drawing it and the box makes the frame's whole image. */
  lemma DrawingIsIncremental(colours: seq<YCbCr>, width: nat, height: nat, last: Last,
                             number: nat, x: nat, y: nat)
    requires |colours| == 7 && x < width
    ensures var l := LayoutOf(width, height);
      var was := ImageLuma(colours, width, height, last, x, y);
      Painted(BoxRects(l, number), x, y, BarDrawn(width, height, last, number, x, y, was))
      == FrameLuma(colours, width, height, number, x, y)
  {
    var l := LayoutOf(width, height);
    var was := ImageLuma(colours, width, height, last, x, y);
    PartsAreLaidOut(width, height);
    BoxCovers(l, number, x, y, BarDrawn(width, height, last, number, x, y, was), BLACK_Y);
    hide LayoutOf, BoxRects, Painted, GreyAt, BarColour, BarAt, IsLaidOut;
  }

  /** Outside the bar and the box a frame's image is the first. */
  lemma OnlyAreasChange(colours: seq<YCbCr>, width: nat, height: nat, number: nat, x: nat, y: nat)
    requires |colours| == 7 && x < width
    requires var l := LayoutOf(width, height);
      !InBox(l, x, y) && !InBar(l, BarAt(width, number), x, y)
    ensures FrameLuma(colours, width, height, number, x, y)
         == FirstLuma(colours, width, height, x, y)
  {
  }

  // ---------------------------------------------------------------- The code's line

  /** The middle of a block of the code. */
  function MiddleX(l: Layout, k: nat): nat {
    l.codeX + k * l.block + l.block / 2
  }

  function MiddleY(l: Layout): nat {
    l.codeY + l.codeLines / 2
  }

  // Which block a place in the middle of one is in.
  lemma MiddleIsInBlock(l: Layout, j: nat, k: nat)
    requires IsLaidOut(l)
    ensures Covers(CodeBlock(l, j), MiddleX(l, k), MiddleY(l)) <==> j == k
  {
    PlaceInBlock(l.block, j, k, l.block / 2);
  }

  lemma PlaceInBlock(block: nat, j: nat, k: nat, at: nat)
    requires at < block
    ensures j * block <= k * block + at < j * block + block <==> j == k
  {
    if j < k {
      MulMonotone(j + 1, k, block);
    } else if j > k {
      MulMonotone(k + 1, j, block);
    }
  }

  lemma MiddleIsInBox(l: Layout, k: nat)
    requires IsLaidOut(l) && k < CODE_BLOCKS
    ensures InBox(l, MiddleX(l, k), MiddleY(l)) && MiddleY(l) < l.digitsY
  {
    MulMonotone(k + 1, CODE_BLOCKS, l.block);
  }

  lemma {:induction false} CodeIsPainted(l: Layout, code: seq<bool>, count: nat, k: nat, base: nat)
    requires IsLaidOut(l) && count <= |code| && k < |code|
    ensures Painted(CodeRects(l, code, count), MiddleX(l, k), MiddleY(l), base)
         == if k < count && code[k] then WHITE_Y else base
    decreases count
  {
    if count > 0 {
      CodeIsPainted(l, code, count - 1, k, base);
      MiddleIsInBlock(l, count - 1, k);
      hide IsLaidOut, Covers, MiddleX, MiddleY;
      var front := CodeRects(l, code, count - 1);
      assert front + [] == front;
      assert (front + [CodeBlock(l, count - 1)])[..|front|] == front;
    }
  }

  /** In the middle of a block the box is light or dark as the number's code has it. */
  lemma BoxShowsCode(l: Layout, number: nat, k: nat, base: nat)
    requires IsLaidOut(l) && k < CODE_BLOCKS
    ensures Painted(BoxRects(l, number), MiddleX(l, k), MiddleY(l), base)
         == if CodeOf(number)[k] then WHITE_Y else BLACK_Y
  {
    MiddleIsInBox(l, k);
    DigitsAreInBox(l, number, NUM_DIGITS);
    CodeIsPainted(l, CodeOf(number), CODE_BLOCKS, k, BLACK_Y);
    DigitsAreBelow(l);
    hide CodeRects, DigitRects, CodeOf, MiddleX, MiddleY, IsLaidOut, Painted, Black, AreBelow;
    var x, y := MiddleX(l, k), MiddleY(l);
    var code, digits := CodeRects(l, CodeOf(number), CODE_BLOCKS), DigitRects(l, number, NUM_DIGITS);
    PaintedMore([Black(l)] + code, digits, x, y, base);
    PaintedMore([Black(l)], code, x, y, base);
    PaintedBlack(l, x, y, base);
    NotCovered(l, digits, l.digitsY, x, y);
    NotPainted(digits, x, y, Painted([Black(l)] + code, x, y, base));
  }

  lemma DigitsAreBelow(l: Layout)
    requires IsLaidOut(l)
    ensures l.boxY <= l.digitsY
  {
  }

  // ---------------------------------------------------------------- Reading the code

  predicate IsLight(luma: nat) {
    luma >= LIGHT_MIN
  }

  predicate IsDark(luma: nat) {
    luma <= DARK_MAX
  }

  /** The line on which a reader looks for the code. */
  function CodeLine(height: nat): nat {
    MiddleY(LayoutOf(320, height))
  }

  /** The middles of the code's blocks in a line, or none when it is too short for them. */
  function Samples(luma: seq<nat>): (s: seq<nat>)
    ensures |s| == 0 || |s| == CODE_BLOCKS
  {
    var l := LayoutOf(|luma|, 240);
    if |luma| < 320 || l.codeX + CODE_BLOCKS * l.block > |luma| then []
    else seq(CODE_BLOCKS, k requires 0 <= k < CODE_BLOCKS =>
             SampleIsInLine(l, |luma|, k);
             luma[MiddleX(l, k)])
  }

  lemma SampleIsInLine(l: Layout, width: nat, k: nat)
    requires l.codeX + CODE_BLOCKS * l.block <= width && k < CODE_BLOCKS && l.block > 0
    ensures MiddleX(l, k) < width
  {
    MulMonotone(k + 1, CODE_BLOCKS, l.block);
  }

  lemma SampleIs(luma: seq<nat>, k: nat)
    requires k < |Samples(luma)|
    ensures var l := LayoutOf(|luma|, 240);
      MiddleX(l, k) < |luma| && Samples(luma)[k] == luma[MiddleX(l, k)]
  {
    PartsAreLaidOut(|luma|, 240);
    hide LayoutOf;
    SampleIsInLine(LayoutOf(|luma|, 240), |luma|, k);
  }

  lemma SamplesAre(luma: seq<nat>)
    ensures var l := LayoutOf(|luma|, 240);
      |Samples(luma)|
      == if |luma| < 320 || l.codeX + CODE_BLOCKS * l.block > |luma| then 0 else CODE_BLOCKS
  {
    hide LayoutOf;
  }

  /** A line that holds a code: every block light or dark, and the marks at both ends. */
  predicate HoldsCode(luma: seq<nat>) {
    var s := Samples(luma);
    |s| == CODE_BLOCKS && (forall k | 0 <= k < CODE_BLOCKS :: IsLight(s[k]) || IsDark(s[k]))
    && IsLight(s[0]) && IsDark(s[1]) && IsDark(s[34]) && IsLight(s[35])
  }

  function Lights(samples: seq<nat>): (b: seq<bool>)
    ensures |b| == |samples|
  {
    seq(|samples|, k requires 0 <= k < |samples| => IsLight(samples[k]))
  }

  /** The number in a line that holds a code. */
  function CodeIn(luma: seq<nat>): nat
    requires HoldsCode(luma)
  {
    Number(Lights(Samples(luma)[2..34]))
  }

  /** Whatever the size, the number of a frame is in the code's line, modulo 2^32, also when the
      line's samples have been cut to eight bits. */
  lemma NumberIsShown(colours: seq<YCbCr>, width: nat, height: nat, number: nat, line: seq<nat>)
    requires |colours| == 7 && IsSize(width, height) && |line| == width
    requires IsLineOf(colours, width, height, number, line)
    ensures HoldsCode(line) && CodeIn(line) == number % W32
  {
    LineShowsCode(colours, width, height, number, line);
    SamplesAreCode(number, Samples(line));
    hide FrameLuma, Samples, CodeOf, Lights, BitsOf;
  }

  ghost predicate IsLineOf(colours: seq<YCbCr>, width: nat, height: nat, number: nat,
                           line: seq<nat>)
    requires |colours| == 7 && |line| == width
  {
    forall x | 0 <= x < width ::
      var luma := FrameLuma(colours, width, height, number, x, CodeLine(height));
      line[x] == luma || line[x] == luma / 4 * 4
  }

  lemma LineShowsCode(colours: seq<YCbCr>, width: nat, height: nat, number: nat, line: seq<nat>)
    requires |colours| == 7 && IsSize(width, height) && |line| == width
    requires IsLineOf(colours, width, height, number, line)
    ensures |Samples(line)| == CODE_BLOCKS
    ensures forall k | 0 <= k < CODE_BLOCKS ::
              Samples(line)[k] == if CodeOf(number)[k] then WHITE_Y else BLACK_Y
  {
    var l := LayoutOf(|line|, 240);
    CodeFits(width, height);
    SamplesAre(line);
    hide FrameLuma, LayoutOf, CodeOf, MiddleX, CodeLine, Samples;
    forall k | 0 <= k < CODE_BLOCKS
      ensures Samples(line)[k] == if CodeOf(number)[k] then WHITE_Y else BLACK_Y
    {
      SampleIs(line, k);
      FrameShowsCode(colours, width, height, number, k);
      BlackOrWhite(CodeOf(number)[k], line[MiddleX(l, k)]);
    }
  }

  lemma BlackOrWhite(light: bool, value: nat)
    requires var luma := if light then WHITE_Y else BLACK_Y;
      value == luma || value == luma / 4 * 4
    ensures value == if light then WHITE_Y else BLACK_Y
  {
  }

  lemma CodeFits(width: nat, height: nat)
    requires IsSize(width, height)
    ensures width >= 320
    ensures var l := LayoutOf(width, 240); l.block > 0 && l.codeX + CODE_BLOCKS * l.block <= width
  {
    PartsAreLaidOut(width, height);
    CodeIsFound(width, height, 320, 240);
    hide LayoutOf;
  }

  lemma FrameShowsCode(colours: seq<YCbCr>, width: nat, height: nat, number: nat, k: nat)
    requires |colours| == 7 && IsSize(width, height) && k < CODE_BLOCKS
    requires MiddleX(LayoutOf(width, 240), k) < width
    ensures FrameLuma(colours, width, height, number, MiddleX(LayoutOf(width, 240), k),
                      CodeLine(height))
         == if CodeOf(number)[k] then WHITE_Y else BLACK_Y
  {
    var l := LayoutOf(width, height);
    PartsAreLaidOut(width, height);
    CodeIsFound(width, height, 320, 240);
    MiddleIsInBox(l, k);
    BoxShowsCode(l, number, k, BLACK_Y);
    hide LayoutOf, CodeOf, BoxRects, Painted, FirstLuma, BarAt, InBar, InBox, IsLaidOut, IsSize;
  }

  lemma SamplesAreCode(number: nat, samples: seq<nat>)
    requires |samples| == CODE_BLOCKS
    requires forall k | 0 <= k < CODE_BLOCKS ::
               if CodeOf(number)[k] then IsLight(samples[k]) else IsDark(samples[k])
    ensures forall k | 0 <= k < CODE_BLOCKS :: IsLight(samples[k]) || IsDark(samples[k])
    ensures IsLight(samples[0]) && IsDark(samples[1]) && IsDark(samples[34]) && IsLight(samples[35])
    ensures Number(Lights(samples[2..34])) == number % W32
  {
    hide BitsOf, Number;
    assert Lights(samples[2..34]) == BitsOf(number % W32, 32);
    Pow2Of32();
    NumberOfBits(number % W32, 32);
  }

  lemma Pow2Of32()
    ensures Pow2(32) == W32
  {
    Pow2Adds(16, 16);
    Pow2Adds(8, 8);
    Pow2Adds(4, 4);
  }
}
