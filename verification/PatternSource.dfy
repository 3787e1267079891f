// Examples/Common/ExampleAvFifo.c: the test pattern packed into frames of video, and the number
// read back from a frame.

module PatternSource {
  import opened Arithmetic
  import opened Bytes
  import opened PatternImage
  import opened Pattern

  // ---------------------------------------------------------------- Pixel groups

  /** The bytes of a group: in 10 bits the samples follow one another, in 8 bits each is cut. */
  function GroupSize(eightBit: bool): nat {
    if eightBit then 4 else 5
  }

  function GroupBytes(eightBit: bool, cb: nat, y0: nat, cr: nat, y1: nat): (g: seq<Byte>)
    requires cb < 1024 && y0 < 1024 && cr < 1024 && y1 < 1024
    ensures |g| == GroupSize(eightBit)
  {
    if eightBit then [ToByte(cb / 4), ToByte(y0 / 4), ToByte(cr / 4), ToByte(y1 / 4)]
    else [ToByte(cb / 4), ToByte(cb % 4 * 64 + y0 / 16), ToByte(y0 % 16 * 16 + cr / 64),
          ToByte(cr % 64 * 4 + y1 / 256), ToByte(y1 % 256)]
  }

  /** The luma of a group's two pixels, as 10-bit values. */
  function LumaIn(eightBit: bool, g: seq<Byte>, second: bool): nat
    requires |g| == GroupSize(eightBit)
  {
    if eightBit then Value(g[if second then 3 else 1]) * 4
    else if second then Value(g[3]) % 4 * 256 + Value(g[4])
    else Value(g[1]) % 64 * 16 + Value(g[2]) / 16
  }

  /** The luma comes back, in 8 bits without its two lowest. */
  lemma GroupRoundTrip(eightBit: bool, cb: nat, y0: nat, cr: nat, y1: nat)
    requires cb < 1024 && y0 < 1024 && cr < 1024 && y1 < 1024
    ensures var g := GroupBytes(eightBit, cb, y0, cr, y1);
      && LumaIn(eightBit, g, false) == (if eightBit then y0 / 4 * 4 else y0)
      && LumaIn(eightBit, g, true) == (if eightBit then y1 / 4 * 4 else y1)
  {
    if eightBit {
      EightBitRoundTrip(cb / 4, y0 / 4, cr / 4, y1 / 4);
    } else {
      TenBitRoundTrip(cb / 4, cb % 4, y0, cr / 64, cr % 64, y1);
    }
    hide ToByte, Value, LumaIn;
  }

  /** The colour of a group: blue is in front of the first pixel's luma, red behind it. */
  function ColourIn(eightBit: bool, g: seq<Byte>, red: bool): nat
    requires |g| == GroupSize(eightBit)
  {
    if eightBit then Value(g[if red then 2 else 0]) * 4
    else if red then Value(g[2]) % 16 * 64 + Value(g[3]) / 4
    else Value(g[0]) * 4 + Value(g[1]) / 64
  }

  /** So do the colours. */
  lemma ColourRoundTrip(eightBit: bool, cb: nat, y0: nat, cr: nat, y1: nat)
    requires cb < 1024 && y0 < 1024 && cr < 1024 && y1 < 1024
    ensures var g := GroupBytes(eightBit, cb, y0, cr, y1);
      && ColourIn(eightBit, g, false) == (if eightBit then cb / 4 * 4 else cb)
      && ColourIn(eightBit, g, true) == (if eightBit then cr / 4 * 4 else cr)
  {
    if eightBit {
      BytesAre(cb / 4, y0 / 4, cr / 4, y1 / 4);
    } else {
      BytesAre(cb / 4, cb % 4 * 64 + y0 / 16, y0 % 16 * 16 + cr / 64, cr % 64 * 4 + y1 / 256);
      ColoursJoin(cb, y0, cr, y1);
    }
    hide ToByte, Value;
  }

  lemma ColoursJoin(cb: nat, y0: nat, cr: nat, y1: nat)
    requires cb < 1024 && y0 < 1024 && cr < 1024 && y1 < 1024
    ensures cb / 4 * 4 + (cb % 4 * 64 + y0 / 16) / 64 == cb
    ensures (y0 % 16 * 16 + cr / 64) % 16 * 64 + (cr % 64 * 4 + y1 / 256) / 4 == cr
  {
    assert (cb % 4 * 64 + y0 / 16) / 64 == cb % 4;
    assert (y0 % 16 * 16 + cr / 64) % 16 == cr / 64;
    assert (cr % 64 * 4 + y1 / 256) / 4 == cr % 64;
  }

  lemma EightBitRoundTrip(cb: nat, y0: nat, cr: nat, y1: nat)
    requires cb < 256 && y0 < 256 && cr < 256 && y1 < 256
    ensures var g := [ToByte(cb), ToByte(y0), ToByte(cr), ToByte(y1)];
      LumaIn(true, g, false) == 4 * y0 && LumaIn(true, g, true) == 4 * y1
  {
    BytesAre(cb, y0, cr, y1);
    hide ToByte, Value;
  }

  lemma TenBitRoundTrip(cb: nat, before: nat, y0: nat, cr: nat, behind: nat, y1: nat)
    requires cb < 256 && before < 4 && y0 < 1024 && cr < 16 && behind < 64 && y1 < 1024
    ensures var g := [ToByte(cb), ToByte(before * 64 + y0 / 16), ToByte(y0 % 16 * 16 + cr),
                      ToByte(behind * 4 + y1 / 256), ToByte(y1 % 256)];
      LumaIn(false, g, false) == y0 && LumaIn(false, g, true) == y1
  {
    SplitJoins(y0, before, cr);
    LastJoins(y1, behind);
    BytesAre(before * 64 + y0 / 16, y0 % 16 * 16 + cr, behind * 4 + y1 / 256, y1 % 256);
    hide ToByte, Value;
  }

  lemma BytesAre(a: nat, b: nat, c: nat, d: nat)
    requires a < 256 && b < 256 && c < 256 && d < 256
    ensures Value(ToByte(a)) == a && Value(ToByte(b)) == b
    ensures Value(ToByte(c)) == c && Value(ToByte(d)) == d
  {
  }

  lemma LastJoins(y1: nat, before: nat)
    requires y1 < 1024 && before < 64
    ensures (before * 4 + y1 / 256) % 4 * 256 + y1 % 256 == y1
  {
    assert (before * 4 + y1 / 256) % 4 == y1 / 256;
  }

  // A sample across two bytes, six bits and four.
  lemma SplitJoins(y0: nat, before: nat, behind: nat)
    requires y0 < 1024 && before < 4 && behind < 16
    ensures (before * 64 + y0 / 16) % 64 * 16 + (y0 % 16 * 16 + behind) / 16 == y0
  {
    assert (before * 64 + y0 / 16) % 64 == y0 / 16;
    assert (y0 % 16 * 16 + behind) / 16 == y0 % 16;
  }

  // ---------------------------------------------------------------- Frames

  predicate TenBits(colours: seq<YCbCr>) {
    |colours| == 7
    && forall i | 0 <= i < 7 :: colours[i].y < 1024 && colours[i].cb < 1024 && colours[i].cr < 1024
  }

  lemma ColourIsTenBits(colours: seq<YCbCr>, width: nat, height: nat, p: nat, y: nat)
    requires TenBits(colours) && 2 * p < width
    ensures FirstColour(colours, width, height, p, y).cb < 1024
    ensures FirstColour(colours, width, height, p, y).cr < 1024
  {
    hide LayoutOf;
    SevenBars(width, 2 * p);
  }

  lemma ImageIsTenBits(colours: seq<YCbCr>, width: nat, height: nat, last: Last, x: nat, y: nat)
    requires TenBits(colours) && x < width
    ensures ImageLuma(colours, width, height, last, x, y) < 1024
  {
    var l := LayoutOf(width, height);
    if last.Drawn? {
      LightIsTenBits(l, last.number, x, y);
    }
    SevenBars(width, x);
    hide LayoutOf, BoxRects, Painted, InBox, InBar;
  }

  lemma LightIsTenBits(l: Layout, number: nat, x: nat, y: nat)
    ensures Painted(BoxRects(l, number), x, y, BLACK_Y) < 1024
  {
    CodeIsWhite(l, CodeOf(number), CODE_BLOCKS);
    DigitsAreWhite(l, number, NUM_DIGITS);
    hide CodeRects, DigitRects, CodeOf;
    PaintedIsTenBits(BoxRects(l, number), x, y, BLACK_Y);
  }

  ghost predicate AreTenBits(rects: seq<Rect>) {
    forall i | 0 <= i < |rects| :: rects[i].luma < 1024
  }

  lemma {:induction false} PaintedIsTenBits(rects: seq<Rect>, x: nat, y: nat, base: nat)
    requires AreTenBits(rects) && base < 1024
    ensures Painted(rects, x, y, base) < 1024
  {
    hide Covers;
    if rects != [] {
      PaintedIsTenBits(rects[..|rects| - 1], x, y, base);
    }
  }

  lemma {:induction false} CodeIsWhite(l: Layout, code: seq<bool>, k: nat)
    requires k <= |code|
    ensures AreTenBits(CodeRects(l, code, k))
  {
    if k > 0 {
      CodeIsWhite(l, code, k - 1);
    }
  }

  lemma {:induction false} RowIsWhite(l: Layout, d: nat, glyph: seq<nat>, row: nat, cols: nat)
    requires IsGlyph(glyph) && row < 7 && cols <= 5
    ensures AreTenBits(RowRects(l, d, glyph, row, cols))
  {
    hide IsSet;
    if cols > 0 {
      RowIsWhite(l, d, glyph, row, cols - 1);
    }
  }

  lemma {:induction false} GlyphIsWhite(l: Layout, d: nat, glyph: seq<nat>, rows: nat)
    requires IsGlyph(glyph) && rows <= 7
    ensures AreTenBits(GlyphRects(l, d, glyph, rows))
  {
    hide RowRects;
    if rows > 0 {
      GlyphIsWhite(l, d, glyph, rows - 1);
      RowIsWhite(l, d, glyph, rows - 1, 5);
    }
  }

  lemma {:induction false} DigitsAreWhite(l: Layout, number: nat, places: nat)
    ensures AreTenBits(DigitRects(l, number, places))
    decreases places
  {
    hide GlyphRects, Glyph;
    if places > 0 {
      DigitsAreWhite(l, number / 10, places - 1);
      GlyphIsWhite(l, places - 1, Glyph(number % 10), 7);
    }
  }

  /** A pixel group of an image. */
  function GroupOf(eightBit: bool, colours: seq<YCbCr>, width: nat, height: nat, last: Last,
                   y: nat, p: nat): (g: seq<Byte>)
    requires TenBits(colours) && 2 * p + 1 < width
    ensures |g| == GroupSize(eightBit)
  {
    ColourIsTenBits(colours, width, height, p, y);
    ImageIsTenBits(colours, width, height, last, 2 * p, y);
    ImageIsTenBits(colours, width, height, last, 2 * p + 1, y);
    var c := FirstColour(colours, width, height, p, y);
    GroupBytes(eightBit, c.cb, ImageLuma(colours, width, height, last, 2 * p, y), c.cr,
               ImageLuma(colours, width, height, last, 2 * p + 1, y))
  }

  /** Where a group starts in its line. */
  function At(eightBit: bool, p: nat): nat {
    if eightBit then 4 * p else 5 * p
  }

  /** The bytes of a group in a frame. */
  ghost function GroupIn(data: array2<Byte>, eightBit: bool, y: nat, p: nat): (g: seq<Byte>)
    requires y < data.Length0 && At(eightBit, p + 1) <= data.Length1
    reads data
    ensures |g| == GroupSize(eightBit)
    ensures forall i | 0 <= i < |g| :: g[i] == data[y, At(eightBit, p) + i]
  {
    seq(GroupSize(eightBit), i requires 0 <= i < GroupSize(eightBit) reads data =>
      data[y, At(eightBit, p) + i])
  }

  /** Stores a group. */
  method PutGroup(data: array2<Byte>, eightBit: bool, y: nat, p: nat, cb: nat, y0: nat, cr: nat,
                  y1: nat)
    requires y < data.Length0 && At(eightBit, p + 1) <= data.Length1
    requires cb < 1024 && y0 < 1024 && cr < 1024 && y1 < 1024
    modifies data
    ensures forall v, q | 0 <= v < data.Length0 && 0 <= q && At(eightBit, q + 1) <= data.Length1 ::
              GroupIn(data, eightBit, v, q)
              == if v == y && q == p then GroupBytes(eightBit, cb, y0, cr, y1)
                 else old(GroupIn(data, eightBit, v, q))
  {
    if eightBit {
      Put4(data, y, p, ToByte(cb / 4), ToByte(y0 / 4), ToByte(cr / 4), ToByte(y1 / 4));
    } else {
      Put5(data, y, p, ToByte(cb / 4), ToByte(cb % 4 * 64 + y0 / 16),
           ToByte(y0 % 16 * 16 + cr / 64), ToByte(cr % 64 * 4 + y1 / 256), ToByte(y1 % 256));
    }
  }

  method Put4(data: array2<Byte>, y: nat, p: nat, a: Byte, b: Byte, c: Byte, d: Byte)
    requires y < data.Length0 && At(true, p + 1) <= data.Length1
    modifies data
    ensures forall v, q | 0 <= v < data.Length0 && 0 <= q && At(true, q + 1) <= data.Length1 ::
              GroupIn(data, true, v, q)
              == if v == y && q == p then [a, b, c, d] else old(GroupIn(data, true, v, q))
  {
    var at := 4 * p;
    data[y, at] := a;
    data[y, at + 1] := b;
    data[y, at + 2] := c;
    data[y, at + 3] := d;
  }

  method Put5(data: array2<Byte>, y: nat, p: nat, a: Byte, b: Byte, c: Byte, d: Byte, e: Byte)
    requires y < data.Length0 && At(false, p + 1) <= data.Length1
    modifies data
    ensures forall v, q | 0 <= v < data.Length0 && 0 <= q && At(false, q + 1) <= data.Length1 ::
              GroupIn(data, false, v, q)
              == if v == y && q == p then [a, b, c, d, e] else old(GroupIn(data, false, v, q))
  {
    var at := 5 * p;
    data[y, at] := a;
    data[y, at + 1] := b;
    data[y, at + 2] := c;
    data[y, at + 3] := d;
    data[y, at + 4] := e;
  }

  // ---------------------------------------------------------------- Packing

  function RowBytes(eightBit: bool, width: nat): nat {
    At(eightBit, width / 2)
  }

  /** Whether a frame has the size of the pattern's image. */
  ghost predicate Fits(pattern: TestPattern, eightBit: bool, data: array2<Byte>) {
    data.Length0 == pattern.height && data.Length1 == RowBytes(eightBit, pattern.width)
  }

  /** A group of the pattern's image, after some frame was drawn. */
  ghost function Expected(pattern: TestPattern, eightBit: bool, last: Last, y: nat, p: nat): seq<Byte>
    requires TenBits(pattern.colours) && 2 * p + 1 < pattern.width
  {
    GroupOf(eightBit, pattern.colours, pattern.width, pattern.height, last, y, p)
  }

  method PackGroup(pattern: TestPattern, eightBit: bool, y: nat, p: nat, data: array2<Byte>)
    requires pattern.Valid() && TenBits(pattern.colours) && Fits(pattern, eightBit, data)
    requires y < pattern.height && p < pattern.width / 2
    modifies data
    ensures forall v, q | 0 <= v < pattern.height && 0 <= q < pattern.width / 2 ::
              GroupIn(data, eightBit, v, q)
              == if v == y && q == p then Expected(pattern, eightBit, pattern.last, y, p)
                 else old(GroupIn(data, eightBit, v, q))
  {
    hide FirstColour, ImageLuma, GroupBytes, LayoutOf;
    ColourIsTenBits(pattern.colours, pattern.width, pattern.height, p, y);
    ImageIsTenBits(pattern.colours, pattern.width, pattern.height, pattern.last, 2 * p, y);
    ImageIsTenBits(pattern.colours, pattern.width, pattern.height, pattern.last, 2 * p + 1, y);
    PutGroup(data, eightBit, y, p, pattern.blue[y, p], pattern.luma[y, 2 * p], pattern.red[y, p],
             pattern.luma[y, 2 * p + 1]);
  }

  /** Packs a part of the image, widened to whole groups. */
  method PackArea(pattern: TestPattern, eightBit: bool, area: Area, data: array2<Byte>)
    requires pattern.Valid() && TenBits(pattern.colours) && Fits(pattern, eightBit, data)
    requires area.x + area.width <= pattern.width && area.y + area.lines <= pattern.height
    modifies data
    ensures forall y, p | 0 <= y < pattern.height && 0 <= p < pattern.width / 2 ::
              GroupIn(data, eightBit, y, p)
              == if InGroups(area, p, y) then Expected(pattern, eightBit, pattern.last, y, p)
                 else old(GroupIn(data, eightBit, y, p))
  {
    hide GroupOf, LayoutOf, FirstColour, ImageLuma;
    for y := area.y to area.y + area.lines
      invariant forall v, p | 0 <= v < pattern.height && 0 <= p < pattern.width / 2 ::
                  GroupIn(data, eightBit, v, p)
                  == if InGroups(area, p, v) && v < y
                     then Expected(pattern, eightBit, pattern.last, v, p)
                     else old(GroupIn(data, eightBit, v, p))
    {
      PackLine(pattern, eightBit, y, area.x / 2, (area.x + area.width + 1) / 2, data);
    }
  }

  /** The groups that a part of the image is widened to. */
  predicate InGroups(a: Area, p: nat, y: nat) {
    a.x / 2 <= p < (a.x + a.width + 1) / 2 && a.y <= y < a.y + a.lines
  }

  method PackLine(pattern: TestPattern, eightBit: bool, y: nat, first: nat, end: nat,
                  data: array2<Byte>)
    requires pattern.Valid() && TenBits(pattern.colours) && Fits(pattern, eightBit, data)
    requires y < pattern.height && first <= end <= pattern.width / 2
    modifies data
    ensures forall v, p | 0 <= v < pattern.height && 0 <= p < pattern.width / 2 ::
              GroupIn(data, eightBit, v, p)
              == if v == y && first <= p < end
                 then Expected(pattern, eightBit, pattern.last, v, p)
                 else old(GroupIn(data, eightBit, v, p))
  {
    hide GroupOf, LayoutOf, FirstColour, ImageLuma;
    for p := first to end
      invariant forall v, q | 0 <= v < pattern.height && 0 <= q < pattern.width / 2 ::
                  GroupIn(data, eightBit, v, q)
                  == if v == y && first <= q < p
                     then Expected(pattern, eightBit, pattern.last, v, q)
                     else old(GroupIn(data, eightBit, v, q))
    {
      PackGroup(pattern, eightBit, y, p, data);
    }
  }

  // ---------------------------------------------------------------- The source of frames

  /** Packed frames of the pattern: the first image, packed once, and what changes in each. */
  class VideoSource {
    const eightBit: bool
    const pattern: TestPattern
    const background: array2<Byte>

    ghost predicate Valid()
      reads this, pattern, pattern.luma, pattern.blue, pattern.red, pattern.greyY, background
    {
      && pattern.Valid() && TenBits(pattern.colours) && Fits(pattern, eightBit, background)
      && Shows(background, NotDrawn)
    }

    /** A frame is the whole image packed. */
    ghost predicate Shows(data: array2<Byte>, last: Last)
      requires TenBits(pattern.colours) && Fits(pattern, eightBit, data)
      reads data
    {
      forall y, p | 0 <= y < pattern.height && 0 <= p < pattern.width / 2 ::
        GroupIn(data, eightBit, y, p) == Expected(pattern, eightBit, last, y, p)
    }

    constructor (eightBit: bool, pattern: TestPattern)
      requires pattern.Valid() && TenBits(pattern.colours) && pattern.last == NotDrawn
      ensures Valid() && this.pattern == pattern && fresh(background)
    {
      this.eightBit, this.pattern := eightBit, pattern;
      background := new Byte[pattern.height, RowBytes(eightBit, pattern.width)];
      new;
      hide GroupOf, LayoutOf, FirstColour, ImageLuma;
      PackAll();
    }

    method PackAll()
      requires pattern.Valid() && TenBits(pattern.colours) && Fits(pattern, eightBit, background)
      modifies background
      ensures Shows(background, pattern.last)
    {
      hide GroupOf, LayoutOf, FirstColour, ImageLuma;
      PackArea(pattern, eightBit, Area(0, 0, pattern.width, pattern.height), background);
    }

    /** A frame of the pattern: a copy of the first image with only what changes packed again
        is the whole image of that frame, whatever was drawn before. */
    method Frame(number: nat, data: array2<Byte>)
      requires Valid() && Fits(pattern, eightBit, data) && data != background && number < W64
      modifies pattern`barX, pattern`last, pattern.luma, data
      ensures Valid() && pattern.last == Drawn(number) && Shows(data, Drawn(number))
    {
      hide GroupOf, LayoutOf, FirstColour, ImageLuma, FirstLuma, FrameLuma;
      CopyFrame(background, data);
      pattern.Draw(number);
      var areas := pattern.Changes();
      Unchanged(areas);
      PackAreas(areas, data);
    }

    // The parts of the image that changed.
    method PackAreas(areas: seq<Area>, data: array2<Byte>)
      requires pattern.Valid() && TenBits(pattern.colours) && Fits(pattern, eightBit, data)
      requires forall i | 0 <= i < |areas| ::
                 areas[i].x + areas[i].width <= pattern.width
                 && areas[i].y + areas[i].lines <= pattern.height
      requires Shows(data, NotDrawn)
      modifies data
      ensures forall y, p | 0 <= y < pattern.height && 0 <= p < pattern.width / 2 ::
                GroupIn(data, eightBit, y, p)
                == Expected(pattern, eightBit,
                            if exists i | 0 <= i < |areas| :: InGroups(areas[i], p, y)
                            then pattern.last else NotDrawn, y, p)
    {
      hide GroupOf, LayoutOf, FirstColour, ImageLuma, InGroups;
      for a := 0 to |areas|
        invariant forall y, p | 0 <= y < pattern.height && 0 <= p < pattern.width / 2 ::
                    GroupIn(data, eightBit, y, p)
                    == Expected(pattern, eightBit,
                                if exists i | 0 <= i < a :: InGroups(areas[i], p, y)
                                then pattern.last else NotDrawn, y, p)
      {
        PackArea(pattern, eightBit, areas[a], data);
      }
    }

    // Groups outside the areas are those of the first image.
    lemma Unchanged(areas: seq<Area>)
      requires pattern.Valid() && TenBits(pattern.colours) && pattern.last.Drawn?
      requires forall y, x | 0 <= y < pattern.height && 0 <= x < pattern.width ::
                 (forall i | 0 <= i < |areas| :: !InArea(areas[i], x, y))
                 ==> pattern.luma[y, x]
                     == FirstLuma(pattern.colours, pattern.width, pattern.height, x, y)
      ensures forall y, p | 0 <= y < pattern.height && 0 <= p < pattern.width / 2 ::
                (forall i | 0 <= i < |areas| :: !InGroups(areas[i], p, y))
                ==> Expected(pattern, eightBit, pattern.last, y, p)
                    == Expected(pattern, eightBit, NotDrawn, y, p)
    {
      hide LayoutOf, FirstColour, FirstLuma, FrameLuma, GroupBytes;
      forall y, p | 0 <= y < pattern.height && 0 <= p < pattern.width / 2
                    && (forall i | 0 <= i < |areas| :: !InGroups(areas[i], p, y))
        ensures Expected(pattern, eightBit, pattern.last, y, p)
             == Expected(pattern, eightBit, NotDrawn, y, p)
      {
        forall i | 0 <= i < |areas|
          ensures !InArea(areas[i], 2 * p, y) && !InArea(areas[i], 2 * p + 1, y)
        {
          assert !InGroups(areas[i], p, y);
        }
        assert pattern.luma[y, 2 * p]
            == FirstLuma(pattern.colours, pattern.width, pattern.height, 2 * p, y);
        assert pattern.luma[y, 2 * p + 1]
            == FirstLuma(pattern.colours, pattern.width, pattern.height, 2 * p + 1, y);
      }
    }
  }

  method CopyFrame(from: array2<Byte>, to: array2<Byte>)
    requires from.Length0 == to.Length0 && from.Length1 == to.Length1 && from != to
    modifies to
    ensures forall y, x | 0 <= y < to.Length0 && 0 <= x < to.Length1 :: to[y, x] == from[y, x]
  {
    for y := 0 to to.Length0
      invariant forall v, x | 0 <= v < y && 0 <= x < to.Length1 :: to[v, x] == from[v, x]
    {
      for x := 0 to to.Length1
        invariant forall v, u | 0 <= v < y && 0 <= u < to.Length1 :: to[v, u] == from[v, u]
        invariant forall u | 0 <= u < x :: to[y, u] == from[y, u]
      {
        to[y, x] := from[y, x];
      }
    }
  }
}
