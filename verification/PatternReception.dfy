// Examples/Common/ExampleAvFifo.c and DtSt2110Video.c: which frames of the test pattern show their
// number once they were sent and received.

/**
 * The examples pack groups of ten bits most significant bit first, and read them so; the library
 * takes a ten-bit frame's groups least significant bit first. Received in ten bits such a frame is
 * as it was sent. Received in eight bits its groups hold other samples.
 * A frame whose size makes the library flag it 4:2:0 is not read at all.
 */
module PatternReception {
  import opened Arithmetic
  import opened Bytes
  import opened Pattern
  import opened PatternImage
  import opened PatternReader
  import opened PatternSource
  import PixelSpec
  import VideoCut
  import VideoJumps
  import VideoLossless
  import VideoParser
  import VideoRoundTrip
  import VideoSafety
  import VideoStart
  import VideoStream

  // ---------------------------------------------------------------- One group

  /** A group of ten bits, sent and received in eight. */
  function InEightBits(g: seq<Byte>): (r: seq<Byte>)
    requires |g| == 5
    ensures |r| == 4
  {
    PixelSpec.Group(PixelSpec.ToUyvy8, PixelSpec.Group(PixelSpec.ToPg10, g))
  }

  /** The luma of any group received in eight bits. */
  lemma LumaBytes(g: seq<Byte>)
    requires |g| == 5
    ensures InEightBits(g)[1] == (g[1] >> 4) | (g[2] << 4) && InEightBits(g)[3] == g[4]
  {
    var s0, s1 := PixelSpec.Le0(g[0], g[1]), PixelSpec.Le1(g[1], g[2]);
    var s2, s3 := PixelSpec.Le2(g[2], g[3]), PixelSpec.Le3(g[3], g[4]);
    PixelSpec.RepackedLe(g[0], g[1], g[2], g[3], g[4]);
    PixelSpec.PackedBe(s0, s1, s2, s3);
    TopOfSecond(g[1], g[2]);
    hide PixelSpec.Le0, PixelSpec.Le1, PixelSpec.Le2, PixelSpec.Le3, PixelSpec.Top8, PixelSpec.Low8;
    hide PixelSpec.Be0, PixelSpec.Be1, PixelSpec.Be2, PixelSpec.Be3, PixelSpec.TenBits;
    hide PixelSpec.Pack1Be, PixelSpec.Pack2Be, PixelSpec.Pack3Be;
  }

  lemma TopOfSecond(b1: Byte, b2: Byte)
    ensures PixelSpec.Top8(PixelSpec.Le1(b1, b2)) == (b1 >> 4) | (b2 << 4)
  {
  }

  // Two halves of bytes as a number.
  lemma HalvesJoin(a: Byte, b: Byte)
    ensures Value((a >> 4) | (b << 4)) == Value(a) / 16 + Value(b) % 16 * 16
  {
    HalvesAre(a, b);
    HalvesAdd(a >> 4, b << 4);
    hide Value;
  }

  lemma HalvesAre(a: Byte, b: Byte)
    ensures Value(a >> 4) == Value(a) / 16 && Value(b << 4) == Value(b) % 16 * 16
    ensures a >> 4 <= 15 && (b << 4) & 15 == 0
  {
    UpperHalf(a);
    LowerHalf(b);
    hide Value;
  }

  lemma UpperHalf(a: Byte)
    ensures Value(a >> 4) == Value(a) / 16
  {
  }

  lemma LowerHalf(b: Byte)
    ensures Value(b << 4) == Value(b) % 16 * 16
  {
  }

  lemma HalvesAdd(low: Byte, high: Byte)
    requires low <= 15 && high & 15 == 0
    ensures Value(low | high) == Value(low) + Value(high)
  {
    assert low | high == low + high;
  }

  /** The luma of a group of the pattern once it was sent in ten bits and received in eight. */
  lemma LumaReceived(cb: nat, y0: nat, cr: nat, y1: nat)
    requires cb < 1024 && y0 < 1024 && cr < 1024 && y1 < 1024
    ensures var r := InEightBits(GroupBytes(false, cb, y0, cr, y1));
      && LumaIn(true, r, false) == (cb % 4 * 4 + y0 / 256 + cr / 64 * 16) * 4
      && LumaIn(true, r, true) == y1 % 256 * 4
  {
    hide InEightBits, ToByte, Value;
    var g := GroupBytes(false, cb, y0, cr, y1);
    LumaBytes(g);
    HalvesJoin(g[1], g[2]);
    BytesAre(cb % 4 * 64 + y0 / 16, y0 % 16 * 16 + cr / 64, y1 % 256, 0);
    SamplesSplit(cb % 4, y0, cr / 64);
  }

  lemma SamplesSplit(before: nat, y: nat, behind: nat)
    requires before < 4 && y < 1024 && behind < 16
    ensures (before * 64 + y / 16) / 16 == before * 4 + y / 256
    ensures (y % 16 * 16 + behind) % 16 == behind
  {
    assert y / 16 / 16 == y / 256;
  }

  /**
   * A pixel's luma comes as it was sent, without its two lowest bits, if and only if its sample
   * is one of these: for the first pixel they depend on the colour.
   */
  lemma LumaComesAsSent(cb: nat, y0: nat, cr: nat, y1: nat)
    requires cb < 1024 && y0 < 1024 && cr < 1024 && y1 < 1024
    ensures var r := InEightBits(GroupBytes(false, cb, y0, cr, y1));
      && (LumaIn(true, r, false) == y0 / 4 * 4
          <==> y0 / 4 - y0 / 256 == cb % 4 * 4 + cr / 64 * 16)
      && (LumaIn(true, r, true) == y1 / 4 * 4 <==> y1 in {0, 341, 682, 1023})
  {
    hide InEightBits, LumaIn, GroupBytes;
    LumaReceived(cb, y0, cr, y1);
    LowerIsUpper(y1);
  }

  lemma LowerIsUpper(y: nat)
    requires y < 1024
    ensures y % 256 == y / 4 <==> y in {0, 341, 682, 1023}
  {
    var upper, lower := y / 256, y % 256;
    assert y == upper * 256 + lower && y / 4 == upper * 64 + lower / 4;
    if upper == 0 {
    } else if upper == 1 {
    } else if upper == 2 {
    }
  }

  /** What the luma of a pixel without colour is received as, by its place in its group. */
  function Received(luma: nat, isSecond: bool): nat {
    if isSecond then luma % 256 * 4 else (128 + luma / 256) * 4
  }

  lemma GreyIsReceived(y0: nat, y1: nat)
    requires y0 < 1024 && y1 < 1024
    ensures var r := InEightBits(GroupBytes(false, NO_COLOUR, y0, NO_COLOUR, y1));
      && LumaIn(true, r, false) == Received(y0, false)
      && LumaIn(true, r, true) == Received(y1, true)
  {
    hide InEightBits, LumaIn, GroupBytes;
    LumaReceived(NO_COLOUR, y0, NO_COLOUR, y1);
  }

  /** The first pixel of every group is then grey; black and white second pixels are still told. */
  lemma FirstPixelIsGrey(luma: nat)
    requires luma < 1024
    ensures !IsLight(Received(luma, false)) && !IsDark(Received(luma, false))
    ensures IsDark(Received(BLACK_Y, true)) && IsLight(Received(WHITE_Y, true))
  {
  }

  /** A black group without colour, for one: its first pixel is grey. */
  lemma BlackComesAsGrey()
    ensures var sent := GroupBytes(false, NO_COLOUR, BLACK_Y, NO_COLOUR, BLACK_Y);
      && LumaIn(false, sent, false) == BLACK_Y && IsDark(BLACK_Y)
      && InEightBits(sent) == [32, 128, 0, 64] && LumaIn(true, InEightBits(sent), false) == 512
      && !IsDark(512) && !IsLight(512)
  {
    var sent := GroupBytes(false, NO_COLOUR, BLACK_Y, NO_COLOUR, BLACK_Y);
    assert sent == [128, 4, 8, 0, 64];
    assert PixelSpec.Group(PixelSpec.ToPg10, sent) == [32, 32, 16, 1, 0];
  }

  // ---------------------------------------------------------------- A frame

  /** Data of ten bits, sent and received in eight. */
  function EightBits(sent: seq<Byte>): (r: seq<Byte>)
    ensures |r| == |sent| / 5 * 4
  {
    PixelSpec.Convert(PixelSpec.ToUyvy8, PixelSpec.Convert(PixelSpec.ToPg10, sent))
  }

  // A group of what is converted.
  lemma {:induction false} ConvertedGroup(c: PixelSpec.Conv, src: seq<Byte>, q: nat)
    requires 5 * q + 5 <= |src|
    ensures var n := if c == PixelSpec.ToUyvy8 then 4 else 5;
      && n * q + n <= |PixelSpec.Convert(c, src)|
      && PixelSpec.Convert(c, src)[n * q..n * q + n] == PixelSpec.Group(c, src[5 * q..5 * q + 5])
    decreases q
  {
    hide PixelSpec.Group;
    var n := if c == PixelSpec.ToUyvy8 then 4 else 5;
    if q > 0 {
      ConvertedGroup(c, src[5..], q - 1);
      assert src[5..][5 * (q - 1)..5 * (q - 1) + 5] == src[5 * q..5 * q + 5];
      var first, rest := PixelSpec.Group(c, src[..5]), PixelSpec.Convert(c, src[5..]);
      assert (first + rest)[n * q..n * q + n] == rest[n * (q - 1)..n * (q - 1) + n];
    }
  }

  lemma GroupInEightBits(sent: seq<Byte>, q: nat)
    requires 5 * q + 5 <= |sent|
    ensures EightBits(sent)[4 * q..4 * q + 4] == InEightBits(sent[5 * q..5 * q + 5])
  {
    hide PixelSpec.Group, PixelSpec.Convert;
    ConvertedGroup(PixelSpec.ToPg10, sent, q);
    ConvertedGroup(PixelSpec.ToUyvy8, PixelSpec.Convert(PixelSpec.ToPg10, sent), q);
  }

  /** What is received of a packed frame of ten bits, in groups of eight or in planes of them. */
  ghost predicate IsReceived(data: seq<Byte>, frame: array2<Byte>, format: FrameFormat)
    reads frame
  {
    var all := EightBits(RowsJoined(frame, frame.Length0));
    if format.Yuv422p?
    then |data| == |all| && forall j | 0 <= j < |all| / 2 :: data[j] == all[2 * j + 1]
    else data == all
  }

  /** A pixel of a line that is read. */
  lemma PixelReceived(frame: array2<Byte>, data: seq<Byte>, format: FrameFormat, width: nat,
                      y: nat, x: nat)
    requires width % 2 == 0 && frame.Length1 == width / 2 * 5 && format != Uyvy10
    requires IsReceived(data, frame, format) && y < frame.Length0 && x < width
    ensures var luma := LumaOf(LineOf(data, 2 * width, format, y), format);
      |luma| == width
      && luma[x] == LumaIn(true, InEightBits(GroupIn(frame, false, y, x / 2)), x % 2 == 1)
  {
    hide EightBits, InEightBits, RowsJoined, Row;
    var sent, p := RowsJoined(frame, frame.Length0), x / 2;
    var q, all := y * (width / 2) + p, EightBits(sent);
    RowIsThere(frame, frame.Length0, y);
    PlacesAre(frame.Length0, width, y, p);
    GroupIsInRow(frame, sent, y, p, q);
    GroupInEightBits(sent, q);
    var r := InEightBits(GroupIn(frame, false, y, p));
    assert all[4 * q..4 * q + 4] == r;
    var at := 4 * q + if x % 2 == 1 then 3 else 1;
    assert all[at] == r[if x % 2 == 1 then 3 else 1];
    assert at == 2 * (y * width + x) + 1;
    LineIs(data, all, format, width, y, frame.Length0, x);
  }

  lemma PlacesAre(rows: nat, width: nat, y: nat, p: nat)
    requires width % 2 == 0 && y < rows && p < width / 2
    ensures var q := y * (width / 2) + p;
      && 5 * q == y * (width / 2 * 5) + 5 * p && 4 * q == 2 * (y * width) + 4 * p
      && 5 * q + 5 <= rows * (width / 2 * 5)
      && rows * (width / 2 * 5) / 5 * 4 == rows * (2 * width)
      && y * width + width <= rows * width
  {
    var half := width / 2;
    assert width == 2 * half && y * width == 2 * (y * half);
    assert y * (half * 5) == 5 * (y * half);
    MulMonotone(y + 1, rows, half);
    assert (y + 1) * half == y * half + half;
    assert rows * (half * 5) == 5 * (rows * half) && rows * (2 * width) == 4 * (rows * half);
  }

  lemma GroupIsInRow(frame: array2<Byte>, sent: seq<Byte>, y: nat, p: nat, q: nat)
    requires y < frame.Length0 && 5 * p + 5 <= frame.Length1
    requires 5 * q == y * frame.Length1 + 5 * p
    requires y * frame.Length1 + frame.Length1 <= |sent|
    requires sent[y * frame.Length1..y * frame.Length1 + frame.Length1] == Row(frame, y)
    ensures sent[5 * q..5 * q + 5] == GroupIn(frame, false, y, p)
  {
    var start := y * frame.Length1;
    PieceOfPiece(sent, start, frame.Length1, 5 * p, 5);
  }

  lemma LineIs(data: seq<Byte>, all: seq<Byte>, format: FrameFormat, width: nat, y: nat, rows: nat,
               x: nat)
    requires format != Uyvy10 && |all| == rows * (2 * width) && x < width
    requires y * width + width <= rows * width
    requires if format.Yuv422p?
             then |data| == |all| && forall j | 0 <= j < |all| / 2 :: data[j] == all[2 * j + 1]
             else data == all
    ensures var luma := LumaOf(LineOf(data, 2 * width, format, y), format);
      |luma| == width && 2 * (y * width + x) + 1 < |all|
      && luma[x] == Value(all[2 * (y * width + x) + 1]) * 4
  {
    LineOfIs(data, width, format, y);
    Twice(rows, width);
    hide LumaOf, LineOf, Piece, LumaIn8, LumaInPlane;
    var at := y * width;
    if format.Yuv422p? {
      LineOfPlane(data, all, at, width, x);
    } else {
      LineOfGroups(data, at, width, x);
    }
  }

  lemma Twice(a: nat, b: nat)
    ensures a * (2 * b) == 2 * (a * b)
  {
  }

  lemma LineOfIs(data: seq<Byte>, width: nat, format: FrameFormat, y: nat)
    requires format != Uyvy10
    ensures LumaOf(LineOf(data, 2 * width, format, y), format)
         == if format.Yuv422p? then LumaInPlane(Piece(data, y * width, width))
            else LumaIn8(Piece(data, 2 * (y * width), 2 * width))
  {
    Twice(y, width);
    hide LumaIn8, LumaInPlane, Piece;
    assert LineSize(2 * width, format) == if format.Yuv422p? then width else 2 * width;
  }

  lemma LineOfGroups(data: seq<Byte>, at: nat, width: nat, x: nat)
    requires 2 * at + 2 * width <= |data| && x < width
    ensures var luma := LumaIn8(Piece(data, 2 * at, 2 * width));
      |luma| == width && luma[x] == Value(data[2 * (at + x) + 1]) * 4
  {
    hide Value;
    assert data[2 * at..2 * at + 2 * width][2 * x + 1] == data[2 * (at + x) + 1];
  }

  lemma LineOfPlane(data: seq<Byte>, all: seq<Byte>, at: nat, width: nat, x: nat)
    requires |data| == |all| && 2 * at + 2 * width <= |all| && x < width
    requires forall j | 0 <= j < |all| / 2 :: data[j] == all[2 * j + 1]
    ensures var luma := LumaInPlane(Piece(data, at, width));
      |luma| == width && luma[x] == Value(all[2 * (at + x) + 1]) * 4
  {
    hide Value;
    assert data[at..at + width][x] == data[at + x];
  }

  // ---------------------------------------------------------------- The number in a frame

  /** The widths at which the middles of the code's blocks are second pixels of their groups. */
  predicate IsReadable(width: nat) {
    width >= 576 && width / 192 % 2 == 1
  }

  lemma MiddlesAre(width: nat, height: nat, k: nat)
    requires width >= 320
    ensures MiddleX(LayoutOf(width, height), k) % 2 == 1 <==> IsReadable(width)
  {
    ColumnsAre(width, height);
    hide LayoutOf, IsReadable;
    var l := LayoutOf(width, height);
    Parity(l.codeX, l.block / 2, k);
  }

  lemma Parity(even: nat, half: nat, k: nat)
    requires even % 2 == 0
    ensures (even + k * (2 * half) + half) % 2 == half % 2
  {
    assert even + k * (2 * half) + half == 2 * (even / 2 + k * half) + half;
  }

  lemma ColumnsAre(width: nat, height: nat)
    requires width >= 320
    ensures var l := LayoutOf(width, height);
      && l.codeX % 2 == 0 && l.block == 2 * (l.block / 2)
      && (l.block / 2 % 2 == 1 <==> IsReadable(width))
  {
    HalfBlock(width);
    PartsAre(width, height);
    PartsAreLaidOut(width, height);
    hide AtLeast, IsReadable, LayoutOf;
    var l := LayoutOf(width, height);
    assert l.boxX % 2 == 0;
    EvenSum(l.boxX, l.block);
    hide Even;
  }

  lemma EvenSum(a: nat, b: nat)
    requires a % 2 == 0 && b % 2 == 0
    ensures (a + b) % 2 == 0 && b == 2 * (b / 2)
  {
  }

  lemma HalfBlock(width: nat)
    requires width >= 320
    ensures var block := AtLeast(Even(width / 96), 4);
      block % 2 == 0 && (block / 2 % 2 == 1 <==> IsReadable(width))
  {
    assert width / 96 / 2 == width / 192;
  }

  // A group as it was packed.
  lemma GroupPacked(source: VideoSource, frame: array2<Byte>, number: nat, y: nat, p: nat)
    requires source.Valid() && !source.eightBit && Fits(source.pattern, false, frame)
    requires source.Shows(frame, Drawn(number))
    requires p < source.pattern.width / 2 && y < source.pattern.height
    ensures TenBits(source.pattern.colours) && frame.Length0 == source.pattern.height
    ensures 5 * p + 5 <= frame.Length1
    ensures GroupIn(frame, false, y, p)
         == GroupOf(false, source.pattern.colours, source.pattern.width, source.pattern.height,
                    Drawn(number), y, p)
  {
    hide GroupOf, TestPattern.Valid;
  }

  // The group of a pixel of the code's line, as it is sent.
  lemma GroupSent(source: VideoSource, frame: array2<Byte>, number: nat, p: nat)
    requires source.Valid() && !source.eightBit && Fits(source.pattern, false, frame)
    requires source.Shows(frame, Drawn(number)) && p < source.pattern.width / 2
    ensures |source.pattern.colours| == 7
    ensures var w, h := source.pattern.width, source.pattern.height;
      var y0, y1 := FrameLuma(source.pattern.colours, w, h, number, 2 * p, CodeLine(h)),
                    FrameLuma(source.pattern.colours, w, h, number, 2 * p + 1, CodeLine(h));
      && y0 < 1024 && y1 < 1024 && CodeLine(h) < h == frame.Length0 && 5 * p + 5 <= frame.Length1
      && GroupIn(frame, false, CodeLine(h), p) == GroupBytes(false, NO_COLOUR, y0, NO_COLOUR, y1)
  {
    var pattern := source.pattern;
    var w, h, line := pattern.width, pattern.height, CodeLine(pattern.height);
    SourceIsSound(source, frame);
    hide LayoutOf, FrameLuma, GroupBytes, CodeLine, IsSize, VideoSource.Valid, VideoSource.Shows;
    hide Fits;
    CodeIsGrey(w, h);
    hide GroupOf, TenBits;
    GroupPacked(source, frame, number, line, p);
    GroupWithoutColour(pattern.colours, w, h, number, line, p);
  }

  lemma GroupWithoutColour(colours: seq<YCbCr>, width: nat, height: nat, number: nat, y: nat,
                           p: nat)
    requires TenBits(colours) && 2 * p + 1 < width && y < LayoutOf(width, height).greyLines
    ensures |colours| == 7
    ensures var y0, y1 := FrameLuma(colours, width, height, number, 2 * p, y),
                          FrameLuma(colours, width, height, number, 2 * p + 1, y);
      && y0 < 1024 && y1 < 1024
      && GroupOf(false, colours, width, height, Drawn(number), y, p)
         == GroupBytes(false, NO_COLOUR, y0, NO_COLOUR, y1)
  {
    hide LayoutOf, FrameLuma, GroupBytes;
    ColourIsTenBits(colours, width, height, p, y);
    ImageIsTenBits(colours, width, height, Drawn(number), 2 * p, y);
    ImageIsTenBits(colours, width, height, Drawn(number), 2 * p + 1, y);
  }

  // The code lies where there is no colour.
  lemma CodeIsGrey(width: nat, height: nat)
    requires IsSize(width, height)
    ensures CodeLine(height) < LayoutOf(width, height).greyLines <= height
  {
    BoxFits(width, height);
    CodeIsFound(width, height, 320, height);
    hide LayoutOf;
  }

  // A pixel of the code's line, as it comes.
  lemma PixelOfCode(source: VideoSource, frame: array2<Byte>, data: seq<Byte>,
                    format: FrameFormat, number: nat, x: nat)
    requires source.Valid() && !source.eightBit && Fits(source.pattern, false, frame)
    requires source.Shows(frame, Drawn(number)) && IsReceived(data, frame, format)
    requires format != Uyvy10 && x < source.pattern.width
    ensures |source.pattern.colours| == 7
    ensures var w, h := source.pattern.width, source.pattern.height;
      var luma := CodeLuma(data, 2 * w, h, format);
      var sent := FrameLuma(source.pattern.colours, w, h, number, x, CodeLine(h));
      |luma| == w && luma[x] == Received(sent, x % 2 == 1)
  {
    var w, h, line := source.pattern.width, source.pattern.height, CodeLine(source.pattern.height);
    SizeIs(source, frame);
    hide VideoSource.Valid, VideoSource.Shows, Fits, IsSize, IsReceived, FrameLuma, CodeLine;
    hide LayoutOf, InEightBits, GroupBytes, LumaIn, LumaOf, LineOf;
    GroupSent(source, frame, number, x / 2);
    PixelReceived(frame, data, format, w, line, x);
    var colours, p := source.pattern.colours, x / 2;
    var y0, y1 := FrameLuma(colours, w, h, number, 2 * p, line),
                  FrameLuma(colours, w, h, number, 2 * p + 1, line);
    GreyIsReceived(y0, y1);
    hide Received;
    if x % 2 == 1 {
      assert x == 2 * p + 1;
    } else {
      assert x == 2 * p;
    }
  }

  lemma SizeIs(source: VideoSource, frame: array2<Byte>)
    requires source.Valid() && !source.eightBit && Fits(source.pattern, false, frame)
    ensures source.pattern.width % 2 == 0 && frame.Length1 == source.pattern.width / 2 * 5
    ensures frame.Length0 == source.pattern.height
  {
    SourceIsSound(source, frame);
    WidthIs(source.pattern.width, false);
    hide VideoSource.Valid, LayoutOf;
  }

  /** A block of the code, black or white, as it comes: grey in a first pixel, else as it was. */
  lemma BlockReceived(source: VideoSource, frame: array2<Byte>, data: seq<Byte>,
                      format: FrameFormat, number: nat, k: nat)
    requires source.Valid() && !source.eightBit && Fits(source.pattern, false, frame)
    requires source.Shows(frame, Drawn(number)) && IsReceived(data, frame, format)
    requires format != Uyvy10 && k < CODE_BLOCKS
    ensures var w, h := source.pattern.width, source.pattern.height;
      var luma, x := CodeLuma(data, 2 * w, h, format), MiddleX(LayoutOf(w, 240), k);
      && |luma| == w && x < w
      && luma[x] == Received(if CodeOf(number)[k] then WHITE_Y else BLACK_Y, IsReadable(w))
  {
    var w, h := source.pattern.width, source.pattern.height;
    SourceIsSound(source, frame);
    hide LayoutOf, FrameLuma, CodeOf, CodeLuma, CodeLine, IsReceived, IsSize, MiddleX;
    hide VideoSource.Valid, VideoSource.Shows, Fits, IsReadable, Received;
    CodeFits(w, h);
    SampleIsInLine(LayoutOf(w, 240), w, k);
    FrameShowsCode(source.pattern.colours, w, h, number, k);
    MiddlesAre(w, 240, k);
    PixelOfCode(source, frame, data, format, number, MiddleX(LayoutOf(w, 240), k));
  }

  lemma NumberIsCode(data: seq<Byte>, width: nat, height: nat, format: FrameFormat)
    requires CodeLine(height) < height && 0 < width <= MAX_WIDTH && format != Uyvy10
    ensures HasNumber(data, 2 * width, height, format)
       <==> HoldsCode(CodeLuma(data, 2 * width, height, format))
  {
    hide CodeLine, HoldsCode, CodeLuma;
  }

  /**
   * The number of a frame of ten bits received in eight is read back, modulo 2^32, at the
   * widths that are readable, and at no other is a number found.
   */
  lemma NumberInEightBits(source: VideoSource, frame: array2<Byte>, data: seq<Byte>,
                          format: FrameFormat, number: nat)
    requires source.Valid() && !source.eightBit && Fits(source.pattern, false, frame)
    requires source.Shows(frame, Drawn(number)) && IsReceived(data, frame, format)
    requires format != Uyvy10 && source.pattern.width <= MAX_WIDTH
    ensures var w, h := source.pattern.width, source.pattern.height;
      && (HasNumber(data, 2 * w, h, format) <==> IsReadable(w))
      && (IsReadable(w) ==> CodeIn(CodeLuma(data, 2 * w, h, format)) == number % W32)
  {
    var w, h := source.pattern.width, source.pattern.height;
    SourceIsSound(source, frame);
    hide LayoutOf, CodeOf, CodeLuma, MiddleX, IsReadable, Samples, IsReceived, CodeLine, HasNumber;
    hide VideoSource.Valid, VideoSource.Shows, Fits, IsSize, Lights, Received;
    FirstPixelIsGrey(BLACK_Y);
    FirstPixelIsGrey(WHITE_Y);
    CodeFits(w, h);
    CodeIsInImage(w, h);
    NumberIsCode(data, w, h, format);
    var luma := CodeLuma(data, 2 * w, h, format);
    BlockReceived(source, frame, data, format, number, 0);
    SamplesAre(luma);
    forall k | 0 <= k < CODE_BLOCKS
      ensures Samples(luma)[k]
           == Received(if CodeOf(number)[k] then WHITE_Y else BLACK_Y, IsReadable(w))
    {
      SampleIs(luma, k);
      BlockReceived(source, frame, data, format, number, k);
    }
    if IsReadable(w) {
      SamplesAreCode(number, Samples(luma));
    } else {
      assert !IsLight(Samples(luma)[0]) && !IsDark(Samples(luma)[0]);
    }
  }

  // ---------------------------------------------------------------- Through the library

  /** The receive formats that the library has for video of 8 bits and of 10. */
  predicate IsFor(format: VideoParser.Format, eightBit: bool) {
    if eightBit then format == VideoParser.AsSent || format == VideoParser.Yuv422p8
    else format == VideoParser.Uyvy10 || format == VideoParser.Uyvy10To8
  }

  /** How a frame received in a format is read. */
  function ReadAs(format: VideoParser.Format): FrameFormat {
    match format
    case Uyvy10 => Uyvy10
    case Yuv422p8 => Yuv422p
    case Uyvy10To8 => Uyvy8
    case AsSent => Uyvy8
  }

  function SourceOf(eightBit: bool): VideoStream.Source {
    if eightBit then VideoStream.FromBytes else VideoStream.FromUyvy10
  }

  // What is read of a frame depends on its line alone.
  lemma LineInFront(a: seq<Byte>, b: seq<Byte>, n: nat, rowBytes: nat, rows: nat,
                    format: FrameFormat)
    requires n <= |a| && n <= |b| && a[..n] == b[..n]
    requires CodeLine(rows) < rows && rows * LineSize(rowBytes, format) <= n
    ensures CodeLuma(a, rowBytes, rows, format) == CodeLuma(b, rowBytes, rows, format)
    ensures HasNumber(a, rowBytes, rows, format) <==> HasNumber(b, rowBytes, rows, format)
  {
    hide CodeLine, HoldsCode, LumaOf, LineSize, WidthOf, CodeIn;
    var line, size := CodeLine(rows), LineSize(rowBytes, format);
    LineEnds(line, rows, size);
    assert a[line * size..line * size + size] == a[..n][line * size..line * size + size];
    assert b[line * size..line * size + size] == b[..n][line * size..line * size + size];
  }

  lemma LineEnds(line: nat, rows: nat, size: nat)
    requires line < rows
    ensures line * size + size <= rows * size
  {
    MulMonotone(line + 1, rows, size);
    assert (line + 1) * size == line * size + size;
  }

  // Whether there is a number in data, and which; numValid bytes are so many lines.
  ghost predicate Holds(data: seq<Byte>, numValid: int, height: nat, format: FrameFormat,
                        found: bool, number: nat) {
    && height > 0 && numValid >= 0
    && (HasNumber(data, numValid / height, height, format) <==> found)
    && (found ==> CodeIn(CodeLuma(data, numValid / height, height, format)) == number % W32)
  }

  // The size of a packed frame, and where its code is.
  lemma FrameIs(source: VideoSource, frame: array2<Byte>)
    requires source.Valid() && Fits(source.pattern, source.eightBit, frame)
    ensures var w, h := source.pattern.width, source.pattern.height;
      && 320 <= w && w % 2 == 0 && frame.Length0 == h > 0 && CodeLine(h) < h
      && frame.Length1 == if source.eightBit then 2 * w else w / 2 * 5
  {
    SourceIsSound(source, frame);
    CodeFits(source.pattern.width, source.pattern.height);
    CodeIsInImage(source.pattern.width, source.pattern.height);
    WidthIs(source.pattern.width, source.eightBit);
    hide VideoSource.Valid, LayoutOf, CodeLine;
  }

  lemma Quotient(n: nat, rows: nat, rowBytes: nat)
    requires rows > 0 && n == rows * rowBytes
    ensures n / rows == rowBytes
  {
    DivUnique(n, rows, rowBytes);
  }

  // Sent and received in groups of one size.
  lemma HoldsInGroups(source: VideoSource, frame: array2<Byte>, number: nat, data: seq<Byte>,
                      sent: seq<Byte>)
    requires source.Valid() && Fits(source.pattern, source.eightBit, frame)
    requires source.Shows(frame, Drawn(number)) && source.pattern.width <= MAX_WIDTH
    requires sent == RowsJoined(frame, frame.Length0) && sent <= data
    ensures Holds(data, |sent|, source.pattern.height, if source.eightBit then Uyvy8 else Uyvy10,
                  true, number)
  {
    var h, format := source.pattern.height, if source.eightBit then Uyvy8 else Uyvy10;
    hide VideoSource.Valid, VideoSource.Shows, Fits, IsSize, LayoutOf, RowsJoined, CodeLine;
    hide HasNumber, CodeLuma, CodeIn;
    FrameIs(source, frame);
    NumberComesBack(source, frame, sent, format, number);
    Quotient(|sent|, h, frame.Length1);
    assert LineSize(frame.Length1, format) == frame.Length1;
    hide LineSize, WidthOf;
    LineInFront(sent, data, |sent|, frame.Length1, h, format);
  }

  // Sent in groups of eight bits and received in planes.
  lemma HoldsInPlanes(source: VideoSource, frame: array2<Byte>, number: nat, data: seq<Byte>,
                      sent: seq<Byte>)
    requires source.Valid() && source.eightBit && Fits(source.pattern, true, frame)
    requires source.Shows(frame, Drawn(number)) && source.pattern.width <= MAX_WIDTH
    requires sent == RowsJoined(frame, frame.Length0) && |sent| / 2 <= |data|
    requires forall j | 0 <= j < |sent| / 2 :: data[j] == sent[2 * j + 1]
    ensures Holds(data, |sent|, source.pattern.height, Yuv422p, true, number)
  {
    var h, w, half := source.pattern.height, source.pattern.width, |sent| / 2;
    hide VideoSource.Valid, VideoSource.Shows, Fits, IsSize, LayoutOf, RowsJoined, CodeLine;
    hide HasNumber, CodeLuma, CodeIn, RowBytes, WidthOf;
    FrameIs(source, frame);
    Twice(h, w);
    var planes := data[..half] + sent[half..];
    PlanesAre(frame, sent, planes, w);
    NumberComesBack(source, frame, planes, Yuv422p, number);
    Quotient(|sent|, h, frame.Length1);
    assert LineSize(2 * w, Yuv422p) == w by {
      WidthIs(w, true);
    }
    LineInFront(planes, data, half, frame.Length1, h, Yuv422p);
  }

  lemma PlanesAre(frame: array2<Byte>, sent: seq<Byte>, planes: seq<Byte>, width: nat)
    requires sent == RowsJoined(frame, frame.Length0) && frame.Length1 == 2 * width
    requires |planes| == |sent| && forall j | 0 <= j < |sent| / 2 :: planes[j] == sent[2 * j + 1]
    ensures IsFrame(planes, frame, Yuv422p)
  {
    hide RowsJoined, Row;
    assert frame.Length1 / 2 == width;
    Twice(frame.Length0, width);
    forall y | 0 <= y < frame.Length0
      ensures IsPlaneLine(planes, Row(frame, y), y * (frame.Length1 / 2))
    {
      RowIsThere(frame, frame.Length0, y);
      Twice(y, width);
      MulMonotone(y + 1, frame.Length0, width);
      assert (y + 1) * width == y * width + width;
      PlaneLineIs(planes, sent, Row(frame, y), y * width, width);
    }
  }

  lemma PlaneLineIs(planes: seq<Byte>, sent: seq<Byte>, row: seq<Byte>, at: nat, width: nat)
    requires |row| == 2 * width && 2 * at + 2 * width <= |sent| == |planes|
    requires sent[2 * at..2 * at + 2 * width] == row
    requires forall j | 0 <= j < |sent| / 2 :: planes[j] == sent[2 * j + 1]
    ensures IsPlaneLine(planes, row, at)
  {
    forall x | 0 <= x < width
      ensures planes[at + x] == row[2 * x + 1]
    {
      assert sent[2 * at..2 * at + 2 * width][2 * x + 1] == sent[2 * (at + x) + 1];
    }
  }

  // Sent in groups of ten bits and received in groups of eight.
  lemma HoldsInEightBits(source: VideoSource, frame: array2<Byte>, number: nat, data: seq<Byte>,
                         sent: seq<Byte>)
    requires source.Valid() && !source.eightBit && Fits(source.pattern, false, frame)
    requires source.Shows(frame, Drawn(number)) && source.pattern.width <= MAX_WIDTH
    requires sent == RowsJoined(frame, frame.Length0) && EightBits(sent) <= data
    ensures Holds(data, |EightBits(sent)|, source.pattern.height, Uyvy8,
                  IsReadable(source.pattern.width), number)
  {
    var h, w, all := source.pattern.height, source.pattern.width, EightBits(sent);
    hide VideoSource.Valid, VideoSource.Shows, Fits, IsSize, LayoutOf, RowsJoined, CodeLine;
    hide HasNumber, CodeLuma, CodeIn, IsReadable, EightBits;
    FrameIs(source, frame);
    PlacesAre(h, w, 0, 0);
    NumberInEightBits(source, frame, all, Uyvy8, number);
    Quotient(|all|, h, 2 * w);
    LineInFront(all, data, |all|, 2 * w, h, Uyvy8);
  }

  /** Lines that the reader has room for; of ten bits received in eight, of a readable width. */
  predicate IsInReach(format: VideoParser.Format, width: nat) {
    width <= MAX_WIDTH && (format != VideoParser.Uyvy10To8 || IsReadable(width))
  }

  // What the bytes delivered hold.
  lemma NumberIsHeld(source: VideoSource, frame: array2<Byte>, number: nat,
                     format: VideoParser.Format, c: VideoCut.TxConfig, rows: nat,
                     f: VideoParser.Frame, w: VideoSafety.WireFrame)
    requires source.Valid() && Fits(source.pattern, source.eightBit, frame)
    requires source.Shows(frame, Drawn(number))
    requires IsFor(format, source.eightBit) && VideoLossless.IsReceived(format, c, rows, f, w)
    requires w.wire == VideoStream.Wire(SourceOf(source.eightBit), RowsJoined(frame, frame.Length0))
    ensures Holds(f.data, f.numValid, source.pattern.height, ReadAs(format),
                  IsInReach(format, source.pattern.width), number)
    ensures f.numValid > 0
  {
    var sent := RowsJoined(frame, frame.Length0);
    SentInGroups(source, frame);
    FrameIs(source, frame);
    hide VideoSource.Valid, VideoSource.Shows, Fits, RowsJoined, Holds, IsReadable;
    hide VideoLossless.IsReceived, VideoStream.Wire, EightBits, CodeLine;
    DataReceived(format, source.eightBit, sent, c, rows, f, w);
    PlacesAre(source.pattern.height, source.pattern.width, 0, 0);
    BytesReceived(frame.Length0, source.pattern.width, f.numValid, format);
    if source.pattern.width > MAX_WIDTH {
      TooWideHasNone(f.data, f.numValid, source.pattern.height, source.pattern.width,
                     ReadAs(format), number);
    } else {
      FitHolds(source, frame, number, format, c, rows, f, w);
    }
  }

  lemma BytesReceived(rows: nat, width: nat, numValid: int, format: VideoParser.Format)
    requires rows > 0 && width > 0 && width % 2 == 0
    requires numValid == rows * if format.Uyvy10? then width / 2 * 5 else 2 * width
    ensures numValid > 0 && WidthOf(numValid / rows, ReadAs(format)) == width
  {
    var rowBytes := if format.Uyvy10? then width / 2 * 5 else 2 * width;
    Quotient(numValid, rows, rowBytes);
    MulMonotone(1, rows, rowBytes);
  }

  lemma TooWideHasNone(data: seq<Byte>, numValid: int, rows: nat, width: nat, format: FrameFormat,
                       number: nat)
    requires rows > 0 && numValid > 0 && width > MAX_WIDTH
    requires WidthOf(numValid / rows, format) == width
    ensures Holds(data, numValid, rows, format, false, number)
  {
    hide WidthOf, CodeLine, CodeLuma;
  }

  lemma FitHolds(source: VideoSource, frame: array2<Byte>, number: nat,
                 format: VideoParser.Format, c: VideoCut.TxConfig, rows: nat,
                 f: VideoParser.Frame, w: VideoSafety.WireFrame)
    requires source.Valid() && Fits(source.pattern, source.eightBit, frame)
    requires source.Shows(frame, Drawn(number)) && source.pattern.width <= MAX_WIDTH
    requires IsFor(format, source.eightBit) && VideoLossless.IsReceived(format, c, rows, f, w)
    requires w.wire == VideoStream.Wire(SourceOf(source.eightBit), RowsJoined(frame, frame.Length0))
    ensures Holds(f.data, f.numValid, source.pattern.height, ReadAs(format),
                  IsInReach(format, source.pattern.width), number)
  {
    var sent := RowsJoined(frame, frame.Length0);
    SentInGroups(source, frame);
    hide VideoSource.Valid, VideoSource.Shows, Fits, RowsJoined, Holds, IsReadable;
    hide VideoLossless.IsReceived, VideoStream.Wire, EightBits;
    DataReceived(format, source.eightBit, sent, c, rows, f, w);
    match format
    case Uyvy10 => HoldsInGroups(source, frame, number, f.data, sent);
    case AsSent => HoldsInGroups(source, frame, number, f.data, sent);
    case Yuv422p8 => HoldsInPlanes(source, frame, number, f.data, sent);
    case Uyvy10To8 => HoldsInEightBits(source, frame, number, f.data, sent);
  }

  /** When a frame of the pattern tells its number at a receiver. */
  predicate IsTold(format: VideoParser.Format, c: VideoCut.TxConfig, rows: nat, width: nat)
    requires VideoCut.Valid(c) && rows > 0
  {
    VideoJumps.IsClear(c, rows) && IsInReach(format, width)
  }

  /** A frame delivered tells just this number, modulo 2^32, if isTold, and else none. */
  ghost predicate TellsIf(format: VideoParser.Format, f: VideoParser.Frame, isTold: bool,
                          number: nat) {
    var tells := TellsNumber(f.data, f.numValid, f.numRows, ReadAs(format), f.is420);
    && (tells <==> isTold)
    && (tells ==> NumberTold(f.data, f.numValid, f.numRows, ReadAs(format), f.is420)
                  == number % W32)
  }

  /**
   * From a frame of the pattern that is sent, whole or as a field, to one that the library
   * delivers: its number is read from it, modulo 2^32, in each format for its video, if and only
   * if the rows and payloads of the first frame do not make the video seem 4:2:0, and its width is
   * no more than the reader has room for and, of ten bits received in eight, readable. Else none
   * is found.
   */
  lemma NumberArrives(source: VideoSource, frame: array2<Byte>, number: nat,
                      format: VideoParser.Format, c: VideoCut.TxConfig, rows: nat,
                      f: VideoParser.Frame, w: VideoSafety.WireFrame)
    requires source.Valid() && Fits(source.pattern, source.eightBit, frame)
    requires source.Shows(frame, Drawn(number))
    requires IsFor(format, source.eightBit) && VideoLossless.IsReceived(format, c, rows, f, w)
    requires w.wire == VideoStream.Wire(SourceOf(source.eightBit), RowsJoined(frame, frame.Length0))
    requires !c.is420 && VideoStream.RowsOf(c, w) == source.pattern.height && rows > 0
    requires VideoLossless.IsFielded(c) || rows == source.pattern.height
    ensures VideoCut.Valid(c)
    ensures TellsIf(format, f, IsTold(format, c, rows, source.pattern.width), number)
  {
    NumberIsHeld(source, frame, number, format, c, rows, f, w);
    VideoRoundTrip.FlagOfReceived(format, c, rows, f, w);
    VideoJumps.JumpIsClear(c, rows);
    hide VideoSource.Valid, VideoSource.Shows, Fits, RowsJoined, IsReadable, HasNumber, CodeIn;
    hide VideoStream.Wire, VideoLossless.Seems420, VideoSafety.IsWhole, VideoRoundTrip.IsJumpClear;
    hide VideoJumps.IsClear, CodeLuma;
  }

  // ---------------------------------------------------------------- The examples

  /** The video that the transmit example configures. */
  function ExampleVideo(width: nat, height: nat, rate: nat, eightBit: bool): VideoStart.VideoConfig {
    VideoStart.VideoConfig(if eightBit then VideoStart.Bits8 else VideoStart.Bits10, width, height,
                           VideoStart.Ratio(rate, 1), VideoStart.Progressive)
  }

  const EXAMPLE_PACKING := VideoStart.Packing(-1, false, false)

  /** What it is sent as. */
  function ExampleConfig(width: nat, height: nat, eightBit: bool): (c: VideoCut.TxConfig) {
    var pgroupBytes := if eightBit then 4 else 5;
    VideoCut.TxConfig(height, width / 2 * pgroupBytes, pgroupBytes, 2, false, false, false, false,
                      1420)
  }

  /** Configure and Start accept it, at any rate, and choose payloads of 1420 bytes. */
  lemma ExampleIsStarted(width: nat, height: nat, rate: nat, eightBit: bool, isVersion2: bool)
    requires width > 0 && width % 2 == 0 && height > 0 && 0 < rate <= INT_MAX
    ensures var r := VideoStart.Configure(ExampleVideo(width, height, rate, eightBit),
                                          EXAMPLE_PACKING);
      && r.Configured?
      && VideoStart.StartPayload(r.config.pgroupBytes, EXAMPLE_PACKING, isVersion2).Payload?
      && VideoStart.Started(r.config, EXAMPLE_PACKING, isVersion2)
         == ExampleConfig(width, height, eightBit)
    ensures VideoCut.Valid(ExampleConfig(width, height, eightBit))
  {
    var v := ExampleVideo(width, height, rate, eightBit);
    VideoStart.ConfigureIsRefused(v, EXAMPLE_PACKING);
    RateIsAccepted(v);
    VideoStart.StartedIsValid(v, EXAMPLE_PACKING, isVersion2);
    hide VideoStart.IntervalOf, VideoStart.PeriodFractionNs;
  }

  lemma RateIsAccepted(v: VideoStart.VideoConfig)
    requires v.rate.numerator > 0 && v.rate.denominator == 1 && v.scanning.Progressive?
    ensures var s := VideoStart.IntervalOf(v);
      NS_PER_SEC * s.part * VideoStart.FrameRate(v.rate, v.scanning).denominator
      < (INT_MAX + 1) * (v.rate.numerator * s.whole)
  {
    var s := VideoStart.IntervalOf(v);
    MulMonotone(1, v.rate.numerator, s.whole);
  }

  /** Wide rows take a packet or more each, so that the video is not taken for 4:2:0. */
  lemma WideIsClear(width: nat, height: nat, eightBit: bool)
    requires width % 2 == 0 && width >= (if eightBit then 710 else 568) && height >= 2
    ensures VideoCut.Valid(ExampleConfig(width, height, eightBit))
    ensures VideoJumps.IsClear(ExampleConfig(width, height, eightBit), height)
  {
    var c := ExampleConfig(width, height, eightBit);
    MultipleOf(c.pgroupBytes, width / 2);
    VideoRoundTrip.OneRowAtATime(c, height);
    VideoJumps.JumpIsClear(c, height);
    hide VideoRoundTrip.IsJumpClear, VideoJumps.IsClear;
  }

  /** Every readable width is as wide: of ten bits received in eight it alone decides. */
  lemma ReadableIsTold(width: nat, height: nat)
    requires width % 2 == 0 && width >= 2 && height >= 2
    ensures VideoCut.Valid(ExampleConfig(width, height, false))
    ensures IsTold(VideoParser.Uyvy10To8, ExampleConfig(width, height, false), height, width)
       <==> IsReadable(width) && width <= MAX_WIDTH
  {
    MultipleOf(5, width / 2);
    hide VideoJumps.IsClear;
    if IsReadable(width) {
      WideIsClear(width, height, false);
    }
  }

  /** At 320 by 240 it is taken for that, in eight bits and in ten. */
  lemma SmallSeems420(eightBit: bool)
    ensures var c := ExampleConfig(320, 240, eightBit);
      && IsSize(320, 240) && VideoCut.Valid(c)
      && VideoJumps.JumpOf(c, 240) == 2 && !VideoJumps.IsClear(c, 240)
  {
  }

  /** There is a pattern of that size, but no frame of it that is received tells a number. */
  lemma SmallTellsNone(eightBit: bool, format: VideoParser.Format, f: VideoParser.Frame,
                       w: VideoSafety.WireFrame)
    requires VideoLossless.IsReceived(format, ExampleConfig(320, 240, eightBit), 240, f, w)
    ensures f.is420 && !TellsNumber(f.data, f.numValid, f.numRows, ReadAs(format), f.is420)
  {
    var c := ExampleConfig(320, 240, eightBit);
    SmallSeems420(eightBit);
    VideoRoundTrip.FlagOfReceived(format, c, 240, f, w);
    VideoJumps.JumpIsClear(c, 240);
    hide VideoLossless.IsReceived, VideoJumps.IsClear, VideoRoundTrip.IsJumpClear, HasNumber;
  }

  /** Frames of the pattern, numbered from 0, as they are sent. */
  ghost predicate AreSent(source: VideoSource, images: seq<array2<Byte>>,
                          frames: seq<VideoSafety.WireFrame>)
    requires TenBits(source.pattern.colours)
    reads images
  {
    && |images| == |frames|
    && forall i | 0 <= i < |images| :: IsSentAs(source, images[i], i, frames[i])
  }

  ghost predicate IsSentAs(source: VideoSource, image: array2<Byte>, number: nat,
                           w: VideoSafety.WireFrame)
    requires TenBits(source.pattern.colours)
    reads image
  {
    && Fits(source.pattern, source.eightBit, image) && source.Shows(image, Drawn(number))
    && w.wire == VideoStream.Wire(SourceOf(source.eightBit), RowsJoined(image, image.Length0))
  }

  function StreamOf(source: VideoSource): (c: VideoCut.TxConfig) {
    ExampleConfig(source.pattern.width, source.pattern.height, source.eightBit)
  }

  /**
   * What the transmit example sends and the receive example reads: each frame but the first tells
   * its number, or, where the size or the format is not fit for it, no frame tells any.
   */
  lemma NumbersArrive(source: VideoSource, images: seq<array2<Byte>>, format: VideoParser.Format,
                      t: VideoStream.Stream, frames: seq<VideoSafety.WireFrame>, seqNum: nat,
                      tods: seq<nat>, envs: seq<VideoParser.Env>)
    requires source.Valid() && IsFor(format, source.eightBit)
    requires AreSent(source, images, frames) && frames != []
    requires var c := StreamOf(source);
      && VideoRoundTrip.IsFit(format, c, t) && VideoLossless.IsSource(c, frames)
      && VideoStream.AreFrames(c, frames) && VideoRoundTrip.AllWell(envs)
      && |tods| == |envs| == |VideoStream.AllPackets(c, t, frames, 0, seqNum)|
      && VideoSafety.HavePayloads(VideoStream.AllPackets(c, t, frames, 0, seqNum))
    ensures var c, rows := StreamOf(source), source.pattern.height;
      var s := VideoParser.Run(format, VideoParser.INITIAL,
                               VideoRoundTrip.InSequence(
                                 VideoStream.AllPackets(c, t, frames, 0, seqNum), tods),
                               envs);
      && VideoCut.Valid(c) && rows > 0 && |s.delivered| == |frames| - 1
      && forall i | 0 <= i < |s.delivered| ::
           TellsIf(format, s.delivered[i], IsTold(format, c, rows, source.pattern.width), i + 1)
  {
    var c, rows := StreamOf(source), source.pattern.height;
    RowsAreHeight(source, frames);
    hide VideoSource.Valid, AreSent, IsTold, TellsIf, StreamOf, VideoCut.Valid;
    hide VideoRoundTrip.AreReceived, VideoStream.AllPackets, VideoStream.RowsOf;
    hide VideoParser.Run, VideoRoundTrip.InSequence, VideoSafety.HavePayloads;
    hide VideoRoundTrip.IsFit, VideoLossless.IsSource, VideoStream.AreFrames, IsFor, TenBits;
    VideoRoundTrip.RoundTrip(format, c, t, frames, seqNum, tods, envs);
    var s := VideoParser.Run(format, VideoParser.INITIAL,
                             VideoRoundTrip.InSequence(
                               VideoStream.AllPackets(c, t, frames, 0, seqNum), tods),
                             envs);
    forall i | 0 <= i < |s.delivered|
      ensures TellsIf(format, s.delivered[i], IsTold(format, c, rows, source.pattern.width), i + 1)
    {
      OneTells(source, images, format, frames, s.delivered, i);
    }
  }

  lemma RowsAreHeight(source: VideoSource, frames: seq<VideoSafety.WireFrame>)
    requires source.Valid() && VideoLossless.IsSource(StreamOf(source), frames) && frames != []
    ensures VideoCut.Valid(StreamOf(source)) && source.pattern.height > 0
    ensures VideoStream.RowsOf(StreamOf(source), frames[0]) == source.pattern.height
  {
    hide VideoSource.Valid;
    assert VideoStream.RowsOf(StreamOf(source), frames[0]) > 0;
  }

  lemma ExampleRows(source: VideoSource, w: VideoSafety.WireFrame)
    ensures var c := StreamOf(source);
      && !c.is420 && !VideoLossless.IsFielded(c)
      && VideoStream.RowsOf(c, w) == source.pattern.height
  {
  }

  lemma ImageArrives(source: VideoSource, image: array2<Byte>, number: nat,
                     format: VideoParser.Format, c: VideoCut.TxConfig, rows: nat,
                     f: VideoParser.Frame, w: VideoSafety.WireFrame)
    requires source.Valid() && IsFor(format, source.eightBit) && IsSentAs(source, image, number, w)
    requires VideoLossless.IsReceived(format, c, rows, f, w) && !c.is420 && rows > 0
    requires VideoStream.RowsOf(c, w) == source.pattern.height == rows
    ensures VideoCut.Valid(c)
    ensures TellsIf(format, f, IsTold(format, c, rows, source.pattern.width), number)
  {
    hide VideoSource.Valid, VideoSource.Shows, Fits, RowsJoined, IsTold, TellsIf, IsFor;
    hide VideoLossless.IsReceived, VideoStream.RowsOf, VideoCut.Valid;
    NumberArrives(source, image, number, format, c, rows, f, w);
  }

  lemma OneTells(source: VideoSource, images: seq<array2<Byte>>, format: VideoParser.Format,
                 frames: seq<VideoSafety.WireFrame>, delivered: seq<VideoParser.Frame>, i: nat)
    requires source.Valid() && IsFor(format, source.eightBit)
    requires AreSent(source, images, frames) && i < |delivered| && frames != []
    requires VideoRoundTrip.AreReceived(format, StreamOf(source), frames, delivered, |frames|)
    requires VideoCut.Valid(StreamOf(source)) && source.pattern.height > 0
    ensures TellsIf(format, delivered[i],
                    IsTold(format, StreamOf(source), source.pattern.height, source.pattern.width),
                    i + 1)
  {
    var c, rows, k := StreamOf(source), source.pattern.height, i + 1;
    ExampleRows(source, frames[k]);
    assert IsSentAs(source, images[k], k, frames[k]);
    hide StreamOf, IsSentAs, VideoStream.RowsOf;
    VideoRoundTrip.OneIsReceived(format, c, frames, delivered, k);
    hide VideoSource.Valid, AreSent, IsTold, TellsIf, VideoLossless.IsReceived;
    hide VideoRoundTrip.AreReceived, IsFor, TenBits, VideoCut.Valid, VideoLossless.IsFielded;
    ImageArrives(source, images[k], k, format, c, rows, delivered[i], frames[k]);
  }

  // The bytes that are delivered of those that were sent.
  lemma DataReceived(format: VideoParser.Format, eightBit: bool, sent: seq<Byte>,
                     c: VideoCut.TxConfig, rows: nat, f: VideoParser.Frame,
                     w: VideoSafety.WireFrame)
    requires IsFor(format, eightBit) && VideoLossless.IsReceived(format, c, rows, f, w)
    requires w.wire == VideoStream.Wire(SourceOf(eightBit), sent)
    requires |sent| % (if eightBit then 4 else 5) == 0
    ensures f.numValid == if format.Uyvy10To8? then |EightBits(sent)| else |sent|
    ensures match format
            case Uyvy10 => sent <= f.data
            case AsSent => sent <= f.data
            case Yuv422p8 =>
              && |sent| / 2 <= |f.data|
              && forall j | 0 <= j < |sent| / 2 :: f.data[j] == sent[2 * j + 1]
            case Uyvy10To8 => EightBits(sent) <= f.data
  {
    hide PixelSpec.Convert, VideoLossless.LastRow, VideoStream.RowsOf, VideoSafety.PlanarHolds;
    hide VideoLossless.Seems420;
    if format.Uyvy10? {
      PixelSpec.ConversionsAreInverse(PixelSpec.ToPg10, PixelSpec.ToUyvy10, sent);
    } else if format.Yuv422p8? {
      LumaIsInFront(f.data, sent);
    }
  }

  lemma SentInGroups(source: VideoSource, frame: array2<Byte>)
    requires source.Valid() && Fits(source.pattern, source.eightBit, frame)
    ensures |RowsJoined(frame, frame.Length0)| % (if source.eightBit then 4 else 5) == 0
  {
    hide VideoSource.Valid, RowsJoined, Fits;
    FrameIs(source, frame);
    WholeGroups(frame.Length0, source.pattern.width / 2);
    Twice(2, source.pattern.width / 2);
  }

  lemma WholeGroups(rows: nat, half: nat)
    ensures rows * (2 * (2 * half)) % 4 == 0 && rows * (half * 5) % 5 == 0
  {
    MultipleOf(4, rows * half);
    MultipleOf(5, rows * half);
    assert rows * (2 * (2 * half)) == 4 * (rows * half) && rows * (half * 5) == 5 * (rows * half);
  }

  lemma LumaIsInFront(data: seq<Byte>, sent: seq<Byte>)
    requires VideoSafety.PlanarHolds(data, sent) && |sent| % 4 == 0
    ensures |sent| / 2 <= |data|
    ensures forall j | 0 <= j < |sent| / 2 :: data[j] == sent[2 * j + 1]
  {
    var n := |sent| / 4;
    assert sent[4 * 0..4 * n] == sent && data[0 + 2 * 0..0 + 2 * n] == data[..2 * n];
    forall j | 0 <= j < 2 * n
      ensures data[j] == sent[2 * j + 1]
    {
      assert data[..2 * n][j] == data[j];
    }
  }
}
