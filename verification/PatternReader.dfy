// Examples/Common/ExampleAvFifo.c: the number read back from a frame that was received.

module PatternReader {
  import opened Arithmetic
  import opened Bytes
  import opened Pattern
  import opened PatternImage
  import opened PatternSource

  // ---------------------------------------------------------------- Reading

  const MAX_WIDTH: nat := 8192

  /** The formats of received frames: groups of ten bits or of eight, or planes of eight. */
  datatype FrameFormat = Uyvy10 | Uyvy8 | Yuv422p

  function WidthOf(rowBytes: nat, format: FrameFormat): nat {
    if format == Uyvy10 then rowBytes / 5 * 2 else rowBytes / 2
  }

  /** The bytes a line of luma is in: a row of groups, or of the luma plane, which comes first. */
  function LineSize(rowBytes: nat, format: FrameFormat): nat {
    if format.Yuv422p? then WidthOf(rowBytes, format) else rowBytes
  }

  /** The luma of a line as 10-bit values. */
  function LumaIn10(row: seq<Byte>): (luma: seq<nat>)
    ensures |luma| == |row| / 5 * 2
  {
    seq(|row| / 5 * 2, x requires 0 <= x < |row| / 5 * 2 =>
        LumaIn(false, row[5 * (x / 2)..5 * (x / 2) + 5], x % 2 == 1))
  }

  function LumaIn8(row: seq<Byte>): (luma: seq<nat>)
    ensures |luma| == |row| / 2
  {
    seq(|row| / 2, x requires 0 <= x < |row| / 2 => Value(row[2 * x + 1]) * 4)
  }

  function LumaInPlane(row: seq<Byte>): (luma: seq<nat>)
    ensures |luma| == |row|
  {
    seq(|row|, x requires 0 <= x < |row| => Value(row[x]) * 4)
  }

  function LumaOf(row: seq<Byte>, format: FrameFormat): seq<nat> {
    match format
    case Uyvy10 => LumaIn10(row)
    case Uyvy8 => LumaIn8(row)
    case Yuv422p => LumaInPlane(row)
  }

  /** So many bytes of a frame, as far as it has them. */
  function Piece(data: seq<Byte>, at: nat, size: nat): (row: seq<Byte>) {
    if at + size <= |data| then data[at..at + size] else []
  }

  /** Line number line of a frame. */
  function LineOf(data: seq<Byte>, rowBytes: nat, format: FrameFormat, line: nat): (row: seq<Byte>) {
    Piece(data, line * LineSize(rowBytes, format), LineSize(rowBytes, format))
  }

  /** The luma of the code's line. */
  function CodeLuma(data: seq<Byte>, rowBytes: nat, rows: nat, format: FrameFormat): seq<nat> {
    LumaOf(LineOf(data, rowBytes, format, CodeLine(rows)), format)
  }

  lemma LineIsInFrame(numValid: nat, rows: nat, line: nat, format: FrameFormat)
    requires rows > 0 && line < rows
    ensures var size := LineSize(numValid / rows, format);
      line * size + size <= numValid
  {
    var rowBytes := numValid / rows;
    var size := LineSize(rowBytes, format);
    DivBounds(numValid, rows);
    MulMonotone(line + 1, rows, size);
    MulMonotone(size, rowBytes, rows);
    assert (line + 1) * size == line * size + size;
  }

  /** Whether a frame of rows of so many bytes has a number in its code's line. */
  predicate HasNumber(data: seq<Byte>, rowBytes: nat, rows: nat, format: FrameFormat) {
    && CodeLine(rows) < rows && 0 < WidthOf(rowBytes, format) <= MAX_WIDTH
    && HoldsCode(CodeLuma(data, rowBytes, rows, format))
  }

  /** Whether a frame tells its number: one of rows and bytes, and not of 4:2:0 video. */
  predicate TellsNumber(data: seq<Byte>, numValid: int, rows: int, format: FrameFormat,
                        is420: bool) {
    !is420 && rows > 0 && numValid > 0 && HasNumber(data, numValid / rows, rows, format)
  }

  /** The number that it tells. */
  function NumberTold(data: seq<Byte>, numValid: int, rows: int, format: FrameFormat,
                      is420: bool): nat
    requires TellsNumber(data, numValid, rows, format, is420)
  {
    CodeIn(CodeLuma(data, numValid / rows, rows, format))
  }

  /** The number in a frame, if it tells one. */
  method ReadFrameNumber(data: seq<Byte>, numValid: int, rows: int, format: FrameFormat,
                         is420: bool) returns (found: bool, number: nat)
    requires numValid <= |data|
    ensures found <==> TellsNumber(data, numValid, rows, format, is420)
    ensures number == if found then NumberTold(data, numValid, rows, format, is420) else 0
  {
    hide LayoutOf, HoldsCode, CodeLine, CodeIn, LumaIn10, LumaIn8, LumaInPlane;
    found, number := false, 0;
    if is420 || rows <= 0 || CodeLine(rows) >= rows || numValid <= 0 {
      return;
    }
    DivBounds(numValid, rows);
    DivMonotone(0, numValid, rows);
    LineIsInFrame(numValid, rows, CodeLine(rows), format);
    found, number := ReadRows(data, numValid / rows, rows, format);
  }

  // The number in a frame of rows of so many bytes.
  method ReadRows(data: seq<Byte>, rowBytes: nat, rows: nat, format: FrameFormat)
    returns (found: bool, number: nat)
    requires CodeLine(rows) < rows
    requires CodeLine(rows) * LineSize(rowBytes, format) + LineSize(rowBytes, format) <= |data|
    ensures found <==> HasNumber(data, rowBytes, rows, format)
    ensures number == if found then CodeIn(CodeLuma(data, rowBytes, rows, format)) else 0
  {
    hide LayoutOf, HoldsCode, CodeLine, CodeIn, LumaIn10, LumaIn8, LumaInPlane;
    found, number := false, 0;
    var line, width := CodeLine(rows), WidthOf(rowBytes, format);
    if width <= 0 || width > MAX_WIDTH {
      return;
    }
    var luma;
    match format {
      case Uyvy10 => luma := ReadLine10(data, line * rowBytes, rowBytes);
      case Uyvy8 => luma := ReadLine8(data, line * rowBytes, rowBytes);
      case Yuv422p => luma := ReadLinePlane(data, line * width, width);
    }
    found, number := ReadNumber(luma);
  }

  method ReadLine8(data: seq<Byte>, at: nat, size: nat) returns (luma: seq<nat>)
    requires at + size <= |data|
    ensures luma == LumaIn8(data[at..at + size])
  {
    luma := [];
    for x := 0 to size / 2
      invariant |luma| == x && forall u | 0 <= u < x :: luma[u] == Value(data[at + 2 * u + 1]) * 4
    {
      luma := luma + [Value(data[at + 2 * x + 1]) * 4];
    }
  }

  method ReadLinePlane(data: seq<Byte>, at: nat, size: nat) returns (luma: seq<nat>)
    requires at + size <= |data|
    ensures luma == LumaInPlane(data[at..at + size])
  {
    luma := [];
    for x := 0 to size
      invariant |luma| == x && forall u | 0 <= u < x :: luma[u] == Value(data[at + u]) * 4
    {
      luma := luma + [Value(data[at + x]) * 4];
    }
  }

  method ReadLine10(data: seq<Byte>, at: nat, size: nat) returns (luma: seq<nat>)
    requires at + size <= |data|
    ensures luma == LumaIn10(data[at..at + size])
  {
    hide LumaIn, PairIn;
    ghost var row := data[at..at + size];
    luma := [];
    for p := 0 to size / 5
      invariant |luma| == 2 * p && forall u | 0 <= u < 2 * p :: luma[u] == LumaIn10(row)[u]
    {
      assert 5 * p + 5 <= size;
      PieceOfPiece(data, at, size, 5 * p, 5);
      luma := luma + PairIn(data[at + 5 * p..at + 5 * p + 5]);
      assert luma[2 * p] == LumaIn10(row)[2 * p] && luma[2 * p + 1] == LumaIn10(row)[2 * p + 1];
    }
  }

  lemma PieceOfPiece(data: seq<Byte>, at: nat, size: nat, from: nat, n: nat)
    requires at + size <= |data| && from + n <= size
    ensures data[at..at + size][from..from + n] == data[at + from..at + from + n]
  {
    var a, b := data[at..at + size][from..from + n], data[at + from..at + from + n];
    forall i | 0 <= i < n
      ensures a[i] == b[i]
    {
    }
    assert a == b;
  }

  // The luma of a group of five bytes.
  function PairIn(g: seq<Byte>): (luma: seq<nat>)
    requires |g| == 5
    ensures luma == [LumaIn(false, g, false), LumaIn(false, g, true)]
  {
    [Value(g[1]) % 64 * 16 + Value(g[2]) / 16, Value(g[3]) % 4 * 256 + Value(g[4])]
  }

  // ---------------------------------------------------------------- Frames as they come

  /** A row of a packed frame. */
  ghost function Row(frame: array2<Byte>, y: nat): (row: seq<Byte>)
    requires y < frame.Length0
    reads frame
    ensures |row| == frame.Length1
  {
    seq(frame.Length1, b requires 0 <= b < frame.Length1 reads frame => frame[y, b])
  }

  /** The first n rows, one behind the other. */
  ghost function RowsJoined(frame: array2<Byte>, n: nat): (data: seq<Byte>)
    requires n <= frame.Length0
    reads frame
    ensures |data| == n * frame.Length1
  {
    if n == 0 then [] else RowsJoined(frame, n - 1) + Row(frame, n - 1)
  }

  lemma {:induction false} RowIsThere(frame: array2<Byte>, n: nat, y: nat)
    requires y < n <= frame.Length0
    ensures y * frame.Length1 + frame.Length1 <= |RowsJoined(frame, n)|
    ensures RowsJoined(frame, n)[y * frame.Length1..y * frame.Length1 + frame.Length1]
         == Row(frame, y)
    decreases n
  {
    hide Row;
    MulMonotone(y + 1, n, frame.Length1);
    assert (y + 1) * frame.Length1 == y * frame.Length1 + frame.Length1;
    var front := RowsJoined(frame, n - 1);
    if y == n - 1 {
      assert y * frame.Length1 == |front|;
    } else {
      RowIsThere(frame, n - 1, y);
      assert RowsJoined(frame, n)[..|front|] == front;
    }
  }

  /** A packed frame of 8 bits as planes: the luma comes first, line after line. */
  ghost predicate IsPlanar(data: seq<Byte>, frame: array2<Byte>)
    reads frame
  {
    var w := frame.Length1 / 2;
    && |data| == frame.Length0 * frame.Length1
    && forall y | 0 <= y < frame.Length0 :: IsPlaneLine(data, Row(frame, y), y * w)
  }

  ghost predicate IsPlaneLine(data: seq<Byte>, row: seq<Byte>, at: int) {
    var w := |row| / 2;
    && 0 <= at && at + w <= |data| && forall x | 0 <= x < w :: data[at + x] == row[2 * x + 1]
  }

  /** The bytes of a frame in a format. */
  ghost predicate IsFrame(data: seq<Byte>, frame: array2<Byte>, format: FrameFormat)
    reads frame
  {
    if format.Yuv422p? then IsPlanar(data, frame) else data == RowsJoined(frame, frame.Length0)
  }

  // The line that is read, from the row of the packed frame.
  lemma LineIsRow(data: seq<Byte>, frame: array2<Byte>, format: FrameFormat, y: nat)
    requires IsFrame(data, frame, format) && y < frame.Length0
    ensures |data| == frame.Length0 * frame.Length1
    ensures LumaOf(LineOf(data, frame.Length1, format, y), format)
         == if format == Uyvy10 then LumaIn10(Row(frame, y)) else LumaIn8(Row(frame, y))
  {
    hide LumaIn10, Row, RowsJoined;
    if format.Yuv422p? {
      PlaneLineIsRow(data, Row(frame, y), y * (frame.Length1 / 2));
    } else {
      RowIsThere(frame, frame.Length0, y);
    }
  }

  lemma PlaneLineIsRow(data: seq<Byte>, row: seq<Byte>, at: nat)
    requires IsPlaneLine(data, row, at)
    ensures LumaInPlane(Piece(data, at, |row| / 2)) == LumaIn8(row)
  {
  }

  /** A packed frame's number is read back, modulo 2^32, in each format. */
  lemma NumberComesBack(source: VideoSource, frame: array2<Byte>, data: seq<Byte>,
                        format: FrameFormat, number: nat)
    requires source.Valid() && Fits(source.pattern, source.eightBit, frame)
    requires source.Shows(frame, Drawn(number)) && source.pattern.width <= MAX_WIDTH
    requires (format == Uyvy10 <==> !source.eightBit) && IsFrame(data, frame, format)
    ensures |data| == source.pattern.height * frame.Length1
    ensures HasNumber(data, frame.Length1, source.pattern.height, format)
    ensures CodeIn(CodeLuma(data, frame.Length1, source.pattern.height, format)) == number % W32
  {
    var w, h := source.pattern.width, source.pattern.height;
    CodeIsInImage(w, h);
    WidthIs(w, source.eightBit);
    LineIsRow(data, frame, format, CodeLine(h));
    LineShowsNumber(source, frame, number);
    var row := Row(frame, CodeLine(h));
    var luma := if source.eightBit then LumaIn8(row) else LumaIn10(row);
    hide IsFrame, LineOf, LumaOf, LumaIn8, LumaIn10, CodeLine, HasNumber, HoldsCode, CodeIn;
    hide VideoSource.Valid, VideoSource.Shows, WidthOf, RowBytes;
    NumberIsThere(data, frame.Length1, h, format, luma, w);
  }

  lemma NumberIsThere(data: seq<Byte>, rowBytes: nat, rows: nat, format: FrameFormat,
                      luma: seq<nat>, width: nat)
    requires CodeLine(rows) < rows && WidthOf(rowBytes, format) == width && 320 <= width <= MAX_WIDTH
    requires LumaOf(LineOf(data, rowBytes, format, CodeLine(rows)), format) == luma
    requires HoldsCode(luma)
    ensures HasNumber(data, rowBytes, rows, format)
    ensures CodeIn(CodeLuma(data, rowBytes, rows, format)) == CodeIn(luma)
  {
  }

  // The code's line of a frame.
  lemma LineShowsNumber(source: VideoSource, frame: array2<Byte>, number: nat)
    requires source.Valid() && Fits(source.pattern, source.eightBit, frame)
    requires source.Shows(frame, Drawn(number)) && CodeLine(source.pattern.height) < frame.Length0
    ensures var row := Row(frame, CodeLine(source.pattern.height));
      var luma := if source.eightBit then LumaIn8(row) else LumaIn10(row);
      HoldsCode(luma) && CodeIn(luma) == number % W32
  {
    var w, h, line := source.pattern.width, source.pattern.height, CodeLine(source.pattern.height);
    var row := Row(frame, line);
    var luma := if source.eightBit then LumaIn8(row) else LumaIn10(row);
    SourceIsSound(source, frame);
    hide LayoutOf, HoldsCode, FrameLuma, CodeLine, CodeIn, LumaIn10, LumaIn8, Fits, IsSize;
    hide VideoSource.Valid, VideoSource.Shows;
    forall x | 0 <= x < w
      ensures x < |luma|
      ensures var full := FrameLuma(source.pattern.colours, w, h, number, x, line);
        luma[x] == full || luma[x] == full / 4 * 4
    {
      LumaComesBack(source, frame, number, x, line);
    }
    NumberIsShown(source.pattern.colours, w, h, number, luma);
  }

  lemma SourceIsSound(source: VideoSource, frame: array2<Byte>)
    requires source.Valid() && Fits(source.pattern, source.eightBit, frame)
    ensures |source.pattern.colours| == 7 && IsSize(source.pattern.width, source.pattern.height)
    ensures WidthOf(frame.Length1, if source.eightBit then Uyvy8 else Uyvy10) == source.pattern.width
  {
    WidthIs(source.pattern.width, source.eightBit);
  }

  lemma LumaComesBack(source: VideoSource, frame: array2<Byte>, number: nat, x: nat, y: nat)
    requires source.Valid() && Fits(source.pattern, source.eightBit, frame)
    requires source.Shows(frame, Drawn(number)) && x < source.pattern.width && y < frame.Length0
    ensures var full := FrameLuma(source.pattern.colours, source.pattern.width,
                                  source.pattern.height, number, x, y);
      if source.eightBit
      then x < |LumaIn8(Row(frame, y))| && LumaIn8(Row(frame, y))[x] == full / 4 * 4
      else x < |LumaIn10(Row(frame, y))| && LumaIn10(Row(frame, y))[x] == full
  {
    hide LayoutOf, FrameLuma, FirstColour, LumaIn, GroupBytes;
    var pattern, p := source.pattern, x / 2;
    var w, h := pattern.width, pattern.height;
    WidthIs(w, source.eightBit);
    ColourIsTenBits(pattern.colours, w, h, p, y);
    ImageIsTenBits(pattern.colours, w, h, Drawn(number), 2 * p, y);
    ImageIsTenBits(pattern.colours, w, h, Drawn(number), 2 * p + 1, y);
    var c := FirstColour(pattern.colours, w, h, p, y);
    GroupRoundTrip(source.eightBit, c.cb, FrameLuma(pattern.colours, w, h, number, 2 * p, y), c.cr,
                   FrameLuma(pattern.colours, w, h, number, 2 * p + 1, y));
    assert GroupIn(frame, source.eightBit, y, p)
        == GroupOf(source.eightBit, pattern.colours, w, h, Drawn(number), y, p);
    if source.eightBit {
      BytesOfPixels(frame, y, x);
    } else {
      assert Row(frame, y)[5 * p..5 * p + 5] == GroupIn(frame, false, y, p);
    }
  }

  // In eight bits every second byte is a pixel's luma.
  lemma BytesOfPixels(frame: array2<Byte>, y: nat, x: nat)
    requires y < frame.Length0 && 4 * (x / 2) + 4 <= frame.Length1
    ensures LumaIn8(Row(frame, y))[x]
         == LumaIn(true, GroupIn(frame, true, y, x / 2), x % 2 == 1)
  {
    var g := GroupIn(frame, true, y, x / 2);
    assert g[1] == frame[y, 4 * (x / 2) + 1] && g[3] == frame[y, 4 * (x / 2) + 3];
  }

  lemma CodeIsInImage(width: nat, height: nat)
    requires IsSize(width, height)
    ensures CodeLine(height) < height
  {
    BoxFits(width, height);
    CodeIsFound(width, height, 320, height);
    hide LayoutOf;
  }

  lemma WidthIs(width: nat, eightBit: bool)
    requires width % 2 == 0
    ensures forall format | format == Uyvy10 <==> !eightBit ::
              WidthOf(RowBytes(eightBit, width), format) == width
    ensures eightBit ==> RowBytes(eightBit, width) == 2 * width
    ensures !eightBit ==> RowBytes(eightBit, width) == width / 2 * 5
  {
  }
}
