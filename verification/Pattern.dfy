// Examples/Common/ExamplePattern.c: the loops that draw the test pattern and read its number.

module Pattern {
  import opened Arithmetic
  import opened Bits
  import opened PatternImage

  // ---------------------------------------------------------------- Filling rectangles

  /** The lines of a plane at some moment. */
  type Plane = seq<seq<nat>>

  ghost predicate IsPlane(plane: Plane, height: nat, width: nat) {
    |plane| == height && forall y | 0 <= y < |plane| :: |plane[y]| == width
  }

  ghost function PlaneOf(luma: array2<nat>): (p: Plane)
    reads luma
    ensures IsPlane(p, luma.Length0, luma.Length1)
    ensures forall y, x | 0 <= y < luma.Length0 && 0 <= x < luma.Length1 :: p[y][x] == luma[y, x]
  {
    seq(luma.Length0, y requires 0 <= y < luma.Length0 reads luma =>
      seq(luma.Length1, x requires 0 <= x < luma.Length1 reads luma => luma[y, x]))
  }

  /** What the luma has become since: rectangles filled one after the other. */
  ghost predicate IsPainted(luma: array2<nat>, before: Plane, rects: seq<Rect>)
    requires IsPlane(before, luma.Length0, luma.Length1)
    reads luma
  {
    forall y, x | 0 <= y < luma.Length0 && 0 <= x < luma.Length1 ::
      luma[y, x] == Painted(rects, x, y, before[y][x])
  }

  method FillLine(luma: array2<nat>, y: nat, from: nat, to: nat, value: nat)
    requires y < luma.Length0 && from <= to <= luma.Length1
    modifies luma
    ensures forall v, x | 0 <= v < luma.Length0 && 0 <= x < luma.Length1 ::
              luma[v, x] == if v == y && from <= x < to then value else old(luma[v, x])
  {
    for x := from to to
      invariant forall v, u | 0 <= v < luma.Length0 && 0 <= u < luma.Length1 ::
                  luma[v, u] == if v == y && from <= u < x then value else old(luma[v, u])
    {
      luma[y, x] := value;
    }
  }

  method FillLuma(luma: array2<nat>, r: Rect)
    requires r.x + r.width <= luma.Length1 && r.y + r.lines <= luma.Length0
    modifies luma
    ensures forall y, x | 0 <= y < luma.Length0 && 0 <= x < luma.Length1 ::
              luma[y, x] == if Covers(r, x, y) then r.luma else old(luma[y, x])
  {
    for y := r.y to r.y + r.lines
      invariant forall v, x | 0 <= v < luma.Length0 && 0 <= x < luma.Length1 ::
                  luma[v, x] == if Covers(r, x, v) && v < y then r.luma else old(luma[v, x])
    {
      FillLine(luma, y, r.x, r.x + r.width, r.luma);
    }
  }

  // One more rectangle.
  method Fill(luma: array2<nat>, r: Rect, ghost before: Plane, ghost rects: seq<Rect>)
    requires r.x + r.width <= luma.Length1 && r.y + r.lines <= luma.Length0
    requires IsPlane(before, luma.Length0, luma.Length1) && IsPainted(luma, before, rects)
    modifies luma
    ensures IsPainted(luma, before, rects + [r])
  {
    hide Covers;
    FillLuma(luma, r);
    assert (rects + [r])[..|rects|] == rects;
  }

  // ---------------------------------------------------------------- The box

  /** Whether the box fits in the plane. */
  ghost predicate HasBox(luma: array2<nat>, l: Layout) {
    IsLaidOut(l) && l.boxX + l.boxWidth <= luma.Length1 && l.boxY + l.boxLines <= luma.Length0
  }

  // A block of the code, if it is light.
  method DrawBlock(luma: array2<nat>, l: Layout, k: nat, light: bool, ghost before: Plane,
                   ghost rects: seq<Rect>)
    requires HasBox(luma, l) && k < CODE_BLOCKS
    requires IsPlane(before, luma.Length0, luma.Length1) && IsPainted(luma, before, rects)
    modifies luma
    ensures IsPainted(luma, before, rects + if light then [CodeBlock(l, k)] else [])
  {
    BlockIsInBox(l, k);
    hide IsPainted, Painted, IsLaidOut;
    if light {
      var r := Rect(l.codeX + k * l.block, l.codeY, l.block, l.codeLines, WHITE_Y);
      assert r == [CodeBlock(l, k)][0];
      Fill(luma, r, before, rects);
    } else {
      assert rects + [] == rects;
    }
  }

  /** Draws the rectangles of the number's code, block by block from the left. */
  method DrawCode(luma: array2<nat>, l: Layout, number: nat, ghost before: Plane,
                  ghost rects: seq<Rect>)
    requires HasBox(luma, l)
    requires IsPlane(before, luma.Length0, luma.Length1) && IsPainted(luma, before, rects)
    modifies luma
    ensures IsPainted(luma, before, rects + CodeRects(l, CodeOf(number), CODE_BLOCKS))
  {
    hide IsPainted, HasBox, CodeOf, CodeBlock;
    ghost var bits := CodeOf(number);
    assert rects + [] == rects;
    for k := 0 to CODE_BLOCKS
      invariant IsPainted(luma, before, rects + CodeRects(l, bits, k))
    {
      CodeBitIs(number, k);
      var light := CodeBit(number % W32, k);
      DrawBlock(luma, l, k, light, before, rects + CodeRects(l, bits, k));
      ghost var next := if light then [CodeBlock(l, k)] else [];
      assert rects + CodeRects(l, bits, k) + next == rects + (CodeRects(l, bits, k) + next);
    }
  }

  /** A block's bit, as the source works it out. */
  function CodeBit(code: nat, k: nat): bool
    requires k < CODE_BLOCKS
  {
    if k < 2 then k == 0
    else if k >= CODE_BLOCKS - 2 then k == CODE_BLOCKS - 1
    else code / Pow2(CODE_BLOCKS - 3 - k) % 2 != 0
  }

  lemma CodeBitIs(number: nat, k: nat)
    requires k < CODE_BLOCKS
    ensures CodeBit(number % W32, k) == CodeOf(number)[k]
  {
    if 2 <= k < CODE_BLOCKS - 2 {
      BitIs(number % W32, 32, k - 2);
    }
    hide BitsOf, Pow2;
  }

  method DrawGlyphRow(luma: array2<nat>, l: Layout, d: nat, glyph: seq<nat>, row: nat,
                      ghost before: Plane, ghost rects: seq<Rect>)
    requires HasBox(luma, l) && d < NUM_DIGITS && IsGlyph(glyph) && row < 7
    requires IsPlane(before, luma.Length0, luma.Length1) && IsPainted(luma, before, rects)
    modifies luma
    ensures IsPainted(luma, before, rects + RowRects(l, d, glyph, row, 5))
  {
    hide IsPainted, Painted, GlyphPixel, IsSet;
    assert rects + [] == rects;
    for col := 0 to 5
      invariant IsPainted(luma, before, rects + RowRects(l, d, glyph, row, col))
    {
      ghost var soFar := RowRects(l, d, glyph, row, col);
      if IsSet(glyph, row, col) {
        PixelIsInBox(l, d, row, col);
        var r := GlyphPixel(l, d, row, col);
        assert r == [GlyphPixel(l, d, row, col)][0];
        Fill(luma, r, before, rects + soFar);
        assert rects + soFar + [r] == rects + (soFar + [r]);
      } else {
        assert soFar + [] == soFar;
      }
    }
  }

  method DrawGlyph(luma: array2<nat>, l: Layout, d: nat, glyph: seq<nat>, ghost before: Plane,
                   ghost rects: seq<Rect>)
    requires HasBox(luma, l) && d < NUM_DIGITS && IsGlyph(glyph)
    requires IsPlane(before, luma.Length0, luma.Length1) && IsPainted(luma, before, rects)
    modifies luma
    ensures IsPainted(luma, before, rects + GlyphRects(l, d, glyph, 7))
  {
    hide IsPainted, HasBox, RowRects, IsGlyph;
    assert rects + [] == rects;
    for row := 0 to 7
      invariant IsPainted(luma, before, rects + GlyphRects(l, d, glyph, row))
    {
      ghost var soFar := GlyphRects(l, d, glyph, row);
      DrawGlyphRow(luma, l, d, glyph, row, before, rects + soFar);
      assert rects + soFar + RowRects(l, d, glyph, row, 5)
          == rects + (soFar + RowRects(l, d, glyph, row, 5));
    }
  }

  /** The digits, from the lowest. */
  method DrawDigits(luma: array2<nat>, l: Layout, number: nat, ghost before: Plane,
                    ghost rects: seq<Rect>)
    requires HasBox(luma, l)
    requires IsPlane(before, luma.Length0, luma.Length1) && IsPainted(luma, before, rects)
    modifies luma
    ensures IsPainted(luma, before, rects + DigitRects(l, number, NUM_DIGITS))
  {
    hide IsPainted, HasBox, GlyphRects, Glyph;
    ghost var all := rects + DigitRects(l, number, NUM_DIGITS);
    ghost var drawn := rects;
    var rest := number;
    var d: nat := NUM_DIGITS;
    while d > 0
      invariant d <= NUM_DIGITS
      invariant drawn + DigitRects(l, rest, d) == all && IsPainted(luma, before, drawn)
    {
      d := d - 1;
      DrawGlyph(luma, l, d, Glyph(rest % 10), before, drawn);
      ghost var glyph := GlyphRects(l, d, Glyph(rest % 10), 7);
      assert drawn + (glyph + DigitRects(l, rest / 10, d))
          == drawn + glyph + DigitRects(l, rest / 10, d);
      drawn := drawn + glyph;
      rest := rest / 10;
    }
    assert drawn + [] == drawn;
  }

  /** The box with a frame's number. */
  method DrawBox(luma: array2<nat>, l: Layout, number: nat, ghost before: Plane)
    requires HasBox(luma, l) && before == PlaneOf(luma)
    modifies luma
    ensures IsPlane(before, luma.Length0, luma.Length1)
    ensures IsPainted(luma, before, BoxRects(l, number))
  {
    assert IsPainted(luma, before, []);
    hide IsPainted, Painted, CodeRects, DigitRects, IsPlane;
    Fill(luma, Rect(l.boxX, l.boxY, l.boxWidth, l.boxLines, BLACK_Y), before, []);
    assert [] + [Black(l)] == [Black(l)];
    DrawCode(luma, l, number, before, [Black(l)]);
    DrawDigits(luma, l, number, before, [Black(l)] + CodeRects(l, CodeOf(number), CODE_BLOCKS));
  }

  // ---------------------------------------------------------------- The pattern

  /** A part of the image. */
  datatype Area = Area(x: nat, y: nat, width: nat, lines: nat)

  predicate InArea(a: Area, x: nat, y: nat) {
    a.x <= x < a.x + a.width && a.y <= y < a.y + a.lines
  }

  function Smaller(a: nat, b: nat): nat {
    if a < b then a else b
  }

  /** An image that is redrawn for one frame after another. */
  class TestPattern {
    const width: nat
    const height: nat
    const luma: array2<nat>
    const blue: array2<nat>
    const red: array2<nat>
    const greyY: array<nat>
    var barX: int

    ghost const colours: seq<YCbCr>
    ghost var last: Last

    ghost predicate Valid()
      reads this, luma, blue, red, greyY
    {
      && IsSize(width, height) && HasPlanes()
      && barX == (if last.Drawn? then BarAt(width, last.number) else -1)
      && (forall y, x | 0 <= y < height && 0 <= x < width ::
            luma[y, x] == ImageLuma(colours, width, height, last, x, y))
      && HasColours()
    }

    ghost predicate HasPlanes() {
      && luma.Length0 == blue.Length0 == red.Length0 == height && luma.Length1 == width
      && blue.Length1 == red.Length1 == width / 2 && greyY.Length == width
      && luma != blue && luma != red && blue != red && |colours| == 7
    }

    /** What drawing leaves as it is. */
    ghost predicate HasColours()
      requires HasPlanes() && width % 2 == 0
      reads blue, red, greyY
    {
      && (forall x | 0 <= x < width :: greyY[x] == GreyAt(width, x))
      && (forall y, p | 0 <= y < height && 0 <= p < width / 2 ::
            && blue[y, p] == FirstColour(colours, width, height, p, y).cb
            && red[y, p] == FirstColour(colours, width, height, p, y).cr)
    }

    /** The first image, in the colours given. */
    constructor (width: nat, height: nat, colours: seq<YCbCr>)
      requires IsSize(width, height) && |colours| == 7
      ensures Valid() && last == NotDrawn && this.colours == colours
      ensures this.width == width && this.height == height
      ensures fresh(luma) && fresh(blue) && fresh(red) && fresh(greyY)
    {
      this.width, this.height, this.colours := width, height, colours;
      luma := new nat[height, width];
      blue := new nat[height, width / 2];
      red := new nat[height, width / 2];
      greyY := new nat[width];
      barX, last := -1, NotDrawn;
      new;
      hide LayoutOf;
      FillGrey();
      FirstImage(colours);
    }

    method FirstImage(bars: seq<YCbCr>)
      requires HasPlanes() && width % 2 == 0 && bars == colours
      requires forall x | 0 <= x < width :: greyY[x] == GreyAt(width, x)
      modifies luma, blue, red
      ensures forall y, x | 0 <= y < height && 0 <= x < width ::
                luma[y, x] == FirstLuma(colours, width, height, x, y)
      ensures HasColours()
    {
      hide LayoutOf, FirstLuma, FirstColour, GreyAt;
      for y := 0 to height
        invariant forall v, x | 0 <= v < y && 0 <= x < width ::
                    luma[v, x] == FirstLuma(colours, width, height, x, v)
        invariant forall v, p | 0 <= v < y && 0 <= p < width / 2 ::
                    && blue[v, p] == FirstColour(colours, width, height, p, v).cb
                    && red[v, p] == FirstColour(colours, width, height, p, v).cr
      {
        var greyLines := LayoutOf(width, height).greyLines;
        FirstLumaLine(y, greyLines, bars);
        FirstColourLine(y, greyLines, bars);
      }
    }

    method FillGrey()
      requires HasPlanes() && width >= 320
      modifies greyY
      ensures forall x | 0 <= x < width :: greyY[x] == GreyAt(width, x)
    {
      for x := 0 to width
        invariant forall u | 0 <= u < x :: greyY[u] == GreyAt(width, u)
      {
        greyY[x] := BLACK_Y + x * 7 / width * 146;
      }
    }

    // One line of the first image.
    method FirstLumaLine(y: nat, greyLines: nat, bars: seq<YCbCr>)
      requires HasPlanes() && y < height && bars == colours
      requires greyLines == LayoutOf(width, height).greyLines
      requires forall x | 0 <= x < width :: greyY[x] == GreyAt(width, x)
      modifies luma
      ensures forall v, x | 0 <= v < height && 0 <= x < width ::
                luma[v, x] == if v == y then FirstLuma(colours, width, height, x, v)
                              else old(luma[v, x])
    {
      hide LayoutOf, GreyAt, BarColour;
      if y < greyLines {
        CopyLine(y, 0, width);
      } else {
        FirstBars(y, bars);
      }
    }

    method FirstColourLine(y: nat, greyLines: nat, bars: seq<YCbCr>)
      requires HasPlanes() && y < height && width % 2 == 0 && bars == colours
      requires greyLines == LayoutOf(width, height).greyLines
      modifies blue, red
      ensures forall v, p | 0 <= v < height && 0 <= p < width / 2 ::
                && blue[v, p] == (if v == y then FirstColour(colours, width, height, p, v).cb
                                  else old(blue[v, p]))
                && red[v, p] == if v == y then FirstColour(colours, width, height, p, v).cr
                                else old(red[v, p])
    {
      hide LayoutOf, FirstColour;
      for p := 0 to width / 2
        invariant forall v, q | 0 <= v < height && 0 <= q < width / 2 ::
                    && blue[v, q] == (if v == y && q < p
                                      then FirstColour(colours, width, height, q, v).cb
                                      else old(blue[v, q]))
                    && red[v, q] == if v == y && q < p
                                    then FirstColour(colours, width, height, q, v).cr
                                    else old(red[v, q])
      {
        FirstColourIs(colours, width, height, p, y);
        blue[y, p] := if y < greyLines then NO_COLOUR else bars[2 * p * 7 / width].cb;
        red[y, p] := if y < greyLines then NO_COLOUR else bars[2 * p * 7 / width].cr;
      }
    }

    method FirstBars(y: nat, bars: seq<YCbCr>)
      requires HasPlanes() && y < height && |bars| == 7
      modifies luma
      ensures forall v, x | 0 <= v < height && 0 <= x < width ::
                luma[v, x] == if v == y then BarColour(bars, width, x).y else old(luma[v, x])
    {
      for x := 0 to width
        invariant forall v, u | 0 <= v < height && 0 <= u < width ::
                    luma[v, u] == if v == y && u < x then BarColour(bars, width, u).y
                                  else old(luma[v, u])
      {
        SevenBars(width, x);
        luma[y, x] := bars[x * 7 / width].y;
      }
    }

    /** Whatever was drawn before, the image afterwards is the numbered frame's. */
    method Draw(number: nat)
      requires Valid() && number < W64
      modifies this`barX, this`last, luma
      ensures Valid() && last == Drawn(number)
    {
      DrawBar(number);
      DrawOver(number);
      barX, last := number * 16 % W64 % width, Drawn(number);
    }

    // The box over the bar.
    method DrawOver(number: nat)
      requires HasPlanes() && IsSize(width, height)
      requires forall y, x | 0 <= y < height && 0 <= x < width ::
                 luma[y, x] == BarDrawn(width, height, last, number, x, y,
                                        ImageLuma(colours, width, height, last, x, y))
      modifies luma
      ensures forall y, x | 0 <= y < height && 0 <= x < width ::
                luma[y, x] == FrameLuma(colours, width, height, number, x, y)
    {
      hide LayoutOf, BarDrawn, ImageLuma, FrameLuma, BoxRects, Painted, IsLaidOut;
      var l := LayoutOf(width, height);
      PartsAreLaidOut(width, height);
      BoxFits(width, height);
      ghost var before := PlaneOf(luma);
      DrawBox(luma, l, number, before);
      forall y, x | 0 <= y < height && 0 <= x < width
        ensures luma[y, x] == FrameLuma(colours, width, height, number, x, y)
      {
        DrawingIsIncremental(colours, width, height, last, number, x, y);
      }
    }

    // The grey scale comes back where the bar was, and the bar is drawn at its new place.
    method DrawBar(number: nat)
      requires Valid()
      modifies luma
      ensures forall y, x | 0 <= y < height && 0 <= x < width ::
                luma[y, x] == BarDrawn(width, height, last, number, x, y,
                                       ImageLuma(colours, width, height, last, x, y))
    {
      hide LayoutOf, ImageLuma, GreyAt, FirstColour;
      GreyFits(width, height);
      var l := LayoutOf(width, height);
      var newX := number * 16 % W64 % width;
      var newEnd := Smaller(newX + l.barWidth, width);
      var oldEnd := if barX < 0 then 0 else Smaller(barX + l.barWidth, width);
      for y := 0 to l.greyLines
        invariant forall v, x | 0 <= v < height && 0 <= x < width ::
                    var was := ImageLuma(colours, width, height, last, x, v);
                    luma[v, x] == if v < y then BarDrawn(width, height, last, number, x, v, was)
                                  else was
      {
        if barX >= 0 {
          CopyLine(y, barX, oldEnd);
        }
        FillLine(luma, y, newX, newEnd, WHITE_Y);
      }
    }

    method CopyLine(y: nat, from: nat, to: nat)
      requires HasPlanes() && y < height && from <= to <= width
      modifies luma
      ensures forall v, x | 0 <= v < height && 0 <= x < width ::
                luma[v, x] == if v == y && from <= x < to then greyY[x] else old(luma[v, x])
    {
      for x := from to to
        invariant forall v, u | 0 <= v < height && 0 <= u < width ::
                    luma[v, u] == if v == y && from <= u < x then greyY[u] else old(luma[v, u])
      {
        luma[y, x] := greyY[x];
      }
    }

    /** The parts where the image is not the first one. */
    method Changes() returns (areas: seq<Area>)
      requires Valid()
      ensures |areas| == if last.Drawn? then 2 else 0
      ensures forall i | 0 <= i < |areas| ::
                areas[i].x + areas[i].width <= width && areas[i].y + areas[i].lines <= height
      ensures forall y, x | 0 <= y < height && 0 <= x < width ::
                (forall i | 0 <= i < |areas| :: !InArea(areas[i], x, y))
                ==> luma[y, x] == FirstLuma(colours, width, height, x, y)
    {
      hide LayoutOf, FirstColour, FirstLuma;
      if barX < 0 {
        return [];
      }
      BoxFits(width, height);
      GreyFits(width, height);
      var l := LayoutOf(width, height);
      var barEnd := Smaller(barX + l.barWidth, width);
      areas := [Area(barX, 0, barEnd - barX, l.greyLines),
                Area(l.boxX, l.boxY, l.boxWidth, l.boxLines)];
      AreasAreChanged(l, areas);
    }

    lemma AreasAreChanged(l: Layout, areas: seq<Area>)
      requires Valid() && last.Drawn? && l == LayoutOf(width, height)
      requires areas == [Area(barX, 0, Smaller(barX + l.barWidth, width) - barX, l.greyLines),
                         Area(l.boxX, l.boxY, l.boxWidth, l.boxLines)]
      ensures forall y, x | 0 <= y < height && 0 <= x < width ::
                (forall i | 0 <= i < |areas| :: !InArea(areas[i], x, y))
                ==> luma[y, x] == FirstLuma(colours, width, height, x, y)
    {
      hide LayoutOf, FirstColour, FirstLuma, FrameLuma;
      forall y, x | 0 <= y < height && 0 <= x < width
                    && (forall i | 0 <= i < |areas| :: !InArea(areas[i], x, y))
        ensures luma[y, x] == FirstLuma(colours, width, height, x, y)
      {
        assert !InArea(areas[0], x, y) && !InArea(areas[1], x, y);
        OnlyAreasChange(colours, width, height, last.number, x, y);
      }
    }
  }

  lemma FirstColourIs(colours: seq<YCbCr>, width: nat, height: nat, p: nat, y: nat)
    requires |colours| == 7 && 2 * p < width
    ensures 0 <= 2 * p * 7 / width < 7
    ensures FirstColour(colours, width, height, p, y)
         == if y < LayoutOf(width, height).greyLines then YCbCr(0, NO_COLOUR, NO_COLOUR)
            else colours[2 * p * 7 / width]
  {
    SevenBars(width, 2 * p);
    hide LayoutOf;
  }

  /** A pattern for the sizes that have one, if there is memory for its planes. */
  method Init(width: nat, height: nat, colours: seq<YCbCr>, hasMemory: bool)
    returns (pattern: TestPattern?)
    requires |colours| == 7
    ensures pattern == null <==> !IsSize(width, height) || !hasMemory
    ensures pattern != null ==>
      && pattern.Valid() && pattern.last == NotDrawn && pattern.colours == colours
      && pattern.width == width && pattern.height == height
  {
    pattern := null;
    if width < 320 || height < 240 || width % 2 != 0 {
      return;
    }
    var l := LayoutOf(width, height);
    if l.boxX + l.boxWidth > width || l.boxY + l.boxLines > l.greyLines {
      return;
    }
    if hasMemory {
      pattern := new TestPattern(width, height, colours);
    }
  }

  // ---------------------------------------------------------------- Reading the number

  /** Reads the number from a line: every block in its middle, and the marks at both ends. */
  method ReadNumber(luma: seq<nat>) returns (found: bool, number: nat)
    ensures found <==> HoldsCode(luma)
    ensures number == if found then CodeIn(luma) else 0
  {
    CodeIsHeld(luma);
    SamplesAre(luma);
    hide LayoutOf, Number, HoldsCode, IsLight, IsDark, Samples;
    found, number := false, 0;
    var l := LayoutOf(|luma|, 240);
    if |luma| < 320 || l.codeX + CODE_BLOCKS * l.block > |luma| {
      return;
    }
    ghost var s := Samples(luma);
    var code := 0;
    NumberOfNone();
    for k := 0 to CODE_BLOCKS
      invariant forall j | 0 <= j < k :: IsBlock(s, j)
      invariant code == Number(Lights(s[2..Smaller(AtLeast(k, 2), 34)]))
    {
      SampleIs(luma, k);
      var value := luma[l.codeX + k * l.block + l.block / 2];
      LightOrDark(value);
      if DARK_MAX < value < LIGHT_MIN {
        assert !IsBlock(s, k);
        return;
      }
      var light := value >= LIGHT_MIN;
      if k < 2 || k >= CODE_BLOCKS - 2 {
        var mark := k == 0 || k == CODE_BLOCKS - 1;
        if light != mark {
          assert !IsBlock(s, k);
          return;
        }
      } else {
        code := 2 * code + if light then 1 else 0;
        OneMoreBit(s, k);
      }
    }
    found, number := true, code;
  }

  /** Whether a block is as it must be. */
  predicate IsBlock(samples: seq<nat>, k: nat)
    requires k < |samples|
  {
    && (IsLight(samples[k]) || IsDark(samples[k]))
    && (k == 0 || k == 35 ==> IsLight(samples[k]))
    && (k == 1 || k == 34 ==> IsDark(samples[k]))
  }

  lemma LightOrDark(value: nat)
    ensures IsLight(value) <==> value >= LIGHT_MIN
    ensures IsLight(value) ==> !IsDark(value)
    ensures !IsLight(value) && !IsDark(value) <==> DARK_MAX < value < LIGHT_MIN
  {
  }

  lemma CodeIsHeld(luma: seq<nat>)
    ensures var s := Samples(luma);
      HoldsCode(luma) <==> |s| == CODE_BLOCKS && forall k | 0 <= k < |s| :: IsBlock(s, k)
  {
    hide Samples;
    var s := Samples(luma);
    if |s| == CODE_BLOCKS && forall k | 0 <= k < |s| :: IsBlock(s, k) {
      assert IsBlock(s, 0) && IsBlock(s, 1) && IsBlock(s, 34) && IsBlock(s, 35);
      forall k | 0 <= k < |s|
        ensures IsLight(s[k]) || IsDark(s[k])
      {
        assert IsBlock(s, k);
      }
    }
  }

  lemma NumberOfNone()
    ensures Number(Lights([])) == 0
  {
  }

  lemma OneMoreBit(samples: seq<nat>, k: nat)
    requires 2 <= k < |samples|
    ensures Number(Lights(samples[2..k + 1]))
         == 2 * Number(Lights(samples[2..k])) + if IsLight(samples[k]) then 1 else 0
  {
    var bits := Lights(samples[2..k + 1]);
    assert bits[..|bits| - 1] == Lights(samples[2..k]);
  }

  lemma BoxFits(width: nat, height: nat)
    requires IsSize(width, height)
    ensures var l := LayoutOf(width, height);
      IsLaidOut(l) && l.boxX + l.boxWidth <= width && l.boxY + l.boxLines <= l.greyLines <= height
  {
    PartsAreLaidOut(width, height);
    GreyFits(width, height);
    hide LayoutOf;
  }

  lemma GreyFits(width: nat, height: nat)
    ensures LayoutOf(width, height).greyLines <= height
  {
  }
}
