// The packets the video packetizer makes of frames, as a stream the parser can follow.

module VideoStream {
  import opened Arithmetic
  import opened Bytes
  import opened Headers
  import opened PixelSpec
  import opened VideoCut
  import opened VideoPackets
  import opened VideoParser
  import opened VideoSafety

  /** The pixel format of the frames that are sent. */
  datatype Source = FromUyvy10 | FromBytes

  /** The bytes in packets of the bytes in a frame. */
  function Wire(source: Source, data: seq<Byte>): seq<Byte> {
    if source.FromUyvy10? then Convert(ToPg10, data) else data
  }

  /** The RTP fields that do not change from packet to packet. */
  datatype Stream = Stream(payloadType: int, ssrc: int)

  predicate StreamFits(t: Stream) {
    0 <= t.payloadType < 0x80 && 0 <= t.ssrc < W32
  }

  /** The step between row numbers: 4:2:0 video counts every other row. */
  function RowStep(c: TxConfig): nat {
    if c.is420 then 2 else 1
  }

  /** Row numbers, pixel offsets and lengths fit their header fields. */
  predicate FitsHeaders(c: TxConfig) {
    && Valid(c)
    && c.numRows * RowStep(c) < 0x8000
    && c.rowSize / c.pgroupBytes * c.pgroupPixels < 0x8000
    && c.payloadSize < 0x10000
  }

  /** The row header of segment i of n. */
  function RowHeader(c: TxConfig, rows: nat, field: bool, s: Segment, isLast: bool): Srd
    requires c.pgroupBytes > 0
  {
    Srd(s.length, field, (rows - s.at.rowsToDo) * RowStep(c), !isLast,
        s.at.rowOffset / c.pgroupBytes * c.pgroupPixels)
  }

  function RowHeaders(c: TxConfig, rows: nat, field: bool, segments: seq<Segment>): (r: seq<Srd>)
    requires c.pgroupBytes > 0
    ensures |r| == |segments|
  {
    if segments == [] then []
    else [RowHeader(c, rows, field, segments[0], |segments| == 1)]
         + RowHeaders(c, rows, field, segments[1..])
  }

  function RowsOf(c: TxConfig, w: WireFrame): nat {
    RowsInField(c, if w.field then 1 else 0)
  }

  /** A frame of the configuration: the bytes of its rows. */
  predicate IsFrame(c: TxConfig, w: WireFrame) {
    && |w.wire| == RowsOf(c, w) * c.rowSize
    && 0 <= w.timestamp < W32
  }

  /** A place in the rows of a frame, with what is in front of it. */
  predicate IsPlaceIn(c: TxConfig, w: WireFrame, p: Place, before: seq<Byte>) {
    && Valid(c) && IsFrame(c, w) && IsPlace(c, p) && p.rowOffset % c.pgroupBytes == 0
    && p.rowsToDo <= RowsOf(c, w)
    && before <= w.wire && |before| + Left(c, p) == |w.wire|
  }

  /** The packet that starts at p. */
  function PacketAt(c: TxConfig, t: Stream, w: WireFrame, k: nat, p: Place, before: seq<Byte>,
                    seqNum: nat): Sent
    requires IsPlaceIn(c, w, p, before) && p.rowsToDo > 0
  {
    var (segments, end) := CutPacket(c, p);
    PacketIsSound(c, p);
    EndIsPlace(c, end);
    Sent(Packet(end.rowsToDo == 0, t.payloadType, seqNum % W32, w.timestamp, t.ssrc,
                RowHeaders(c, RowsOf(c, w), w.field, segments),
                w.wire[|before|..|before| + Sum(segments)]),
         k, before)
  }

  // A place has no negative number of bytes left.
  lemma EndIsPlace(c: TxConfig, p: Place)
    requires IsPlace(c, p)
    ensures Left(c, p) >= 0 && (Left(c, p) == 0 <==> p.rowsToDo == 0)
  {
    if p.rowsToDo > 0 {
      MulMonotone(1, p.rowsToDo, c.rowSize);
    }
  }

  lemma NextPlace(c: TxConfig, t: Stream, w: WireFrame, k: nat, p: Place, before: seq<Byte>,
                  seqNum: nat)
    requires IsPlaceIn(c, w, p, before) && p.rowsToDo > 0
    ensures var x, end := PacketAt(c, t, w, k, p, before, seqNum), CutPacket(c, p).1;
      && IsPlaceIn(c, w, end, before + x.packet.data)
      && (x.packet.marker <==> before + x.packet.data == w.wire)
      && |x.packet.data| == Sum(CutPacket(c, p).0) > 0
  {
    PacketIsSound(c, p);
    EndIsPlace(c, CutPacket(c, p).1);
  }

  // ---------------------------------------------------------------- Where row headers point

  /**
   * Where a receiver puts a segment: at the row, of which 4:2:0 video has two lines each, and the
   * pixel that its header gives.
   */
  function PositionOf(c: TxConfig, r: Srd): int
    requires c.pgroupPixels > 0
  {
    (if c.is420 then r.row / 2 else r.row) * c.rowSize
    + r.offset / c.pgroupPixels * c.pgroupBytes
  }

  /** The bytes of the first n segments. */
  function BytesOf(srds: seq<Srd>, n: nat): int
    requires n <= |srds|
  {
    if n == 0 then 0 else srds[0].length + BytesOf(srds[1..], n - 1)
  }

  lemma PositionOfStart(c: TxConfig, rows: nat, field: bool, p: Place, s: Segment, isLast: bool)
    requires Valid(c) && s.at == p && p.rowsToDo <= rows && p.rowOffset % c.pgroupBytes == 0
    ensures PositionOf(c, RowHeader(c, rows, field, s, isLast))
         == (rows - p.rowsToDo) * c.rowSize + p.rowOffset
  {
    var groups := p.rowOffset / c.pgroupBytes;
    assert groups * c.pgroupPixels / c.pgroupPixels == groups by {
      DivUnique(groups * c.pgroupPixels, c.pgroupPixels, groups);
    }
    assert groups * c.pgroupBytes == p.rowOffset;
  }

  lemma {:induction false} PositionsFollow(c: TxConfig, rows: nat, field: bool, p: Place,
                                           segments: seq<Segment>, end: Place, i: nat)
    requires Valid(c) && AreSegments(c, p, segments, end) && i < |segments| && p.rowsToDo <= rows
    ensures var srds := RowHeaders(c, rows, field, segments);
      && PositionOf(c, srds[i])
         == (rows - p.rowsToDo) * c.rowSize + p.rowOffset + BytesOf(srds, i)
      && srds[i].length == segments[i].length && srds[i].field == field
      && (srds[i].continuation <==> i + 1 < |segments|)
    decreases i
  {
    hide PositionOf;
    var srds, next := RowHeaders(c, rows, field, segments),
                      Advance(c, p, segments[0].length);
    if i == 0 {
      PositionOfStart(c, rows, field, p, segments[0], |segments| == 1);
    } else {
      PositionsFollow(c, rows, field, next, segments[1..], end, i - 1);
      assert srds[i] == srds[1..][i - 1];
      OneRowMore(rows, p.rowsToDo, c.rowSize);
    }
  }

  lemma OneRowMore(rows: int, k: int, size: int)
    ensures (rows - (k - 1)) * size == (rows - k) * size + size
  {
  }

  lemma {:induction false} BytesAreSum(c: TxConfig, rows: nat, field: bool,
                                       segments: seq<Segment>, i: nat)
    requires c.pgroupBytes > 0 && i < |segments|
    ensures var srds := RowHeaders(c, rows, field, segments);
      0 <= BytesOf(srds, i) && BytesOf(srds, i) + segments[i].length <= Sum(segments)
    decreases i
  {
    if i > 0 {
      BytesAreSum(c, rows, field, segments[1..], i - 1);
      assert RowHeaders(c, rows, field, segments)[1..] == RowHeaders(c, rows, field, segments[1..]);
    }
  }

  /**
   * A receiver that puts each segment of a packet where its row header says puts the frame's bytes
   * where they are in the frame; all but the last header announce another.
   */
  lemma SegmentsAreInPlace(c: TxConfig, t: Stream, w: WireFrame, k: nat, p: Place,
                           before: seq<Byte>, seqNum: nat, i: nat)
    requires IsPlaceIn(c, w, p, before) && p.rowsToDo > 0
    requires i < |PacketAt(c, t, w, k, p, before, seqNum).packet.srds|
    ensures var x := PacketAt(c, t, w, k, p, before, seqNum).packet;
      var r, from, to := x.srds[i], BytesOf(x.srds, i), PositionOf(c, x.srds[i]);
      && 0 <= r.length && 0 <= from && from + r.length <= |x.data|
      && 0 <= to && to + r.length <= |w.wire|
      && x.data[from..from + r.length] == w.wire[to..to + r.length]
      && r.field == w.field && (r.continuation <==> i + 1 < |x.srds|)
  {
    hide CutPacket, RowHeaders, Sum, AreSegments, PositionOf, RowsInField, BytesOf;
    var (segments, end) := CutPacket(c, p);
    var rows := RowsOf(c, w);
    PacketIsSound(c, p);
    NextPlace(c, t, w, k, p, before, seqNum);
    PositionsFollow(c, rows, w.field, p, segments, end, i);
    BytesAreSum(c, rows, w.field, segments, i);
    PlaceIsThere(c, w, p, before);
    hide IsPlaceIn;
  }

  lemma PlaceIsThere(c: TxConfig, w: WireFrame, p: Place, before: seq<Byte>)
    requires IsPlaceIn(c, w, p, before)
    ensures Valid(c) && p.rowsToDo <= RowsOf(c, w)
    ensures |before| == (RowsOf(c, w) - p.rowsToDo) * c.rowSize + p.rowOffset
  {
  }

  /** The packets of frame k from p on. */
  function PacketsFrom(c: TxConfig, t: Stream, w: WireFrame, k: nat, p: Place,
                       before: seq<Byte>, seqNum: nat): seq<Sent>
    requires IsPlaceIn(c, w, p, before)
    decreases p.rowsToDo, c.rowSize - p.rowOffset
  {
    if p.rowsToDo == 0 then []
    else
      NextPlace(c, t, w, k, p, before, seqNum);
      var x := PacketAt(c, t, w, k, p, before, seqNum);
      [x] + PacketsFrom(c, t, w, k, CutPacket(c, p).1, before + x.packet.data, seqNum + 1)
  }

  // The packets from a place are the one there and those behind it.
  lemma PacketsUnfold(c: TxConfig, t: Stream, w: WireFrame, k: nat, p: Place, before: seq<Byte>,
                      seqNum: nat)
    requires IsPlaceIn(c, w, p, before)
    ensures p.rowsToDo == 0 ==> PacketsFrom(c, t, w, k, p, before, seqNum) == []
    ensures p.rowsToDo > 0 ==>
      && Valid(c) && IsPlace(c, p) && p.rowOffset % c.pgroupBytes == 0
      && var x, end := PacketAt(c, t, w, k, p, before, seqNum), CutPacket(c, p).1;
      && IsPlaceIn(c, w, end, before + x.packet.data) && x.packet.data != []
      && (x.packet.marker <==> end.rowsToDo == 0)
      && (end.rowsToDo < p.rowsToDo
          || (end.rowsToDo == p.rowsToDo && c.rowSize - end.rowOffset < c.rowSize - p.rowOffset))
      && PacketsFrom(c, t, w, k, p, before, seqNum)
         == [x] + PacketsFrom(c, t, w, k, end, before + x.packet.data, seqNum + 1)
  {
    hide IsPlaceIn, PacketAt, CutPacket;
    PlaceFacts(c, w, p, before);
    if p.rowsToDo > 0 {
      NextPlace(c, t, w, k, p, before, seqNum);
      PacketTags(c, t, w, k, p, before, seqNum);
    }
  }

  lemma InsideHasPlace(c: TxConfig, w: WireFrame, p: Place, before: seq<Byte>)
    requires IsPlaceIn(c, w, p, before)
    ensures Valid(c) && p.rowOffset < c.rowSize
  {
  }

  // ---------------------------------------------------------------- One packet is sound

  // The numbers in a row header fit it, and are zero only at the start of the frame.
  lemma HeaderFits(c: TxConfig, rows: nat, at: Place)
    requires FitsHeaders(c) && rows <= c.numRows && 0 < at.rowsToDo <= rows
    requires at.rowOffset < c.rowSize && at.rowOffset % c.pgroupBytes == 0
    ensures var row, offset := (rows - at.rowsToDo) * RowStep(c),
                               at.rowOffset / c.pgroupBytes * c.pgroupPixels;
      && 0 <= row < 0x8000 && 0 <= offset < 0x8000
      && (row == 0 && offset == 0 <==> at == Place(rows, 0))
      && (offset == 0 <==> at.rowOffset == 0)
  {
    OffsetFits(at.rowOffset, c.rowSize, c.pgroupBytes, c.pgroupPixels);
    RowFits(c, rows, at);
    hide *;
  }

  lemma RowFits(c: TxConfig, rows: nat, at: Place)
    requires c.numRows * RowStep(c) < 0x8000 && rows <= c.numRows && 0 < at.rowsToDo <= rows
    ensures 0 <= (rows - at.rowsToDo) * RowStep(c) < 0x8000
    ensures (rows - at.rowsToDo) * RowStep(c) == 0 <==> at.rowsToDo == rows
  {
  }

  lemma OffsetFits(rowOffset: nat, rowSize: nat, bytes: nat, pixels: nat)
    requires bytes > 0 && pixels > 0 && rowOffset < rowSize && rowOffset % bytes == 0
    requires rowSize / bytes * pixels < 0x8000
    ensures 0 <= rowOffset / bytes * pixels < 0x8000
    ensures rowOffset / bytes * pixels == 0 <==> rowOffset == 0
  {
    DivMonotone(rowOffset, rowSize, bytes);
    MulMonotone(rowOffset / bytes, rowSize / bytes, pixels);
    if rowOffset > 0 {
      DivBounds(rowOffset, bytes);
      DivMonotone(bytes, rowOffset, bytes);
      MulMonotone(1, rowOffset / bytes, pixels);
    }
  }

  // A multiple of a multiple.
  lemma MultipleOfMultiple(a: nat, m: nat, g: nat)
    requires m > 0 && g > 0 && a % m == 0 && m % g == 0
    ensures a % g == 0
  {
    var x, y := a / m, m / g;
    assert a == m * x && m == g * y;
    assert a == g * (y * x) by {
      assert m * x == g * (y * x);
    }
    MultipleOf(g, y * x);
  }

  /** The format's pixel groups are those of the stream. */
  predicate FormatFits(format: Format, c: TxConfig) {
    c.pgroupBytes % GroupBytes(format) == 0
  }

  ghost predicate AreSound(format: Format, field: bool, srds: seq<Srd>) {
    forall i | 0 <= i < |srds| ::
      && SrdFits(srds[i]) && srds[i].length > 0
      && srds[i].field == field
      && srds[i].continuation == (i + 1 < |srds|)
      && srds[i].length % GroupBytes(format) == 0
  }

  lemma {:induction false} RowHeadersAreSound(format: Format, c: TxConfig, rows: nat, field: bool,
                                              p: Place, segments: seq<Segment>, end: Place)
    requires FitsHeaders(c) && FormatFits(format, c)
    requires rows <= c.numRows && p.rowsToDo <= rows
    requires AreSegments(c, p, segments, end) && Sum(segments) <= c.payloadSize
    ensures AreSound(format, field, RowHeaders(c, rows, field, segments))
    ensures DataBytes(RowHeaders(c, rows, field, segments)) == Sum(segments)
    decreases |segments|
  {
    if segments != [] {
      var s := segments[0];
      HeaderFits(c, rows, p);
      MultipleOfMultiple(s.length, c.pgroupBytes, GroupBytes(format));
      RowHeadersAreSound(format, c, rows, field, Advance(c, p, s.length), segments[1..], end);
    }
  }

  lemma RowsFit(c: TxConfig, w: WireFrame)
    ensures RowsOf(c, w) <= c.numRows
  {
  }

  /** A packet of frame k, as the parser's stream has it. */
  lemma PacketIsSent(format: Format, frames: seq<WireFrame>, c: TxConfig, t: Stream, k: nat,
                     p: Place, before: seq<Byte>, seqNum: nat)
    requires FitsHeaders(c) && StreamFits(t) && FormatFits(format, c) && k < |frames|
    requires IsPlaceIn(c, frames[k], p, before) && p.rowsToDo > 0
    ensures IsSent(format, frames, seqNum, 0, PacketAt(c, t, frames[k], k, p, before, seqNum))
  {
    hide IsPlaceIn, CutPacket, AreSegments, AreSound, Left;
    var w := frames[k];
    PlaceFacts(c, w, p, before);
    var (segments, end) := CutPacket(c, p);
    PacketIsSound(c, p);
    NextPlace(c, t, w, k, p, before, seqNum);
    RowsFit(c, w);
    RowHeadersAreSound(format, c, RowsOf(c, w), w.field, p, segments, end);
    var srds := RowHeaders(c, RowsOf(c, w), w.field, segments);
    SoundPacket(format, PacketAt(c, t, w, k, p, before, seqNum).packet, w.field);
    assert srds[0].row == 0 && srds[0].offset == 0 <==> p == Place(RowsOf(c, w), 0) by {
      FirstSegment(c, p, segments, end);
      HeaderFits(c, RowsOf(c, w), p);
    }
    BeforeInGroups(c, w, p, before, GroupBytes(format));
  }

  lemma FirstSegment(c: TxConfig, p: Place, segments: seq<Segment>, end: Place)
    requires c.pgroupBytes > 0 && AreSegments(c, p, segments, end) && segments != []
    ensures segments[0].at == p && p.rowsToDo > 0 && p.rowOffset < c.rowSize
    ensures p.rowOffset % c.pgroupBytes == 0
  {
  }

  lemma SoundPacket(format: Format, p: Packet, field: bool)
    requires AreSound(format, field, p.srds) && 1 <= |p.srds| <= 3
    requires DataBytes(p.srds) == |p.data|
    requires 0 <= p.payloadType < 0x80 && 0 <= p.seqNum < W32 && 0 <= p.timestamp < W32
    requires 0 <= p.ssrc < W32
    ensures IsPacket(p, field)
    ensures forall i | 0 <= i < |p.srds| :: p.srds[i].length % GroupBytes(format) == 0
  {
  }

  lemma PlaceFacts(c: TxConfig, w: WireFrame, p: Place, before: seq<Byte>)
    requires IsPlaceIn(c, w, p, before)
    ensures Valid(c) && IsPlace(c, p) && p.rowOffset % c.pgroupBytes == 0
    ensures p.rowsToDo <= RowsOf(c, w) && 0 <= w.timestamp < W32 && before <= w.wire
    ensures before == [] <==> p == Place(RowsOf(c, w), 0)
  {
    if p.rowsToDo < RowsOf(c, w) {
      MulMonotone(p.rowsToDo + 1, RowsOf(c, w), c.rowSize);
    }
  }

  // What is in front of a place is whole groups.
  lemma BeforeInGroups(c: TxConfig, w: WireFrame, p: Place, before: seq<Byte>, g: nat)
    requires IsPlaceIn(c, w, p, before) && g > 0 && c.pgroupBytes % g == 0
    ensures |before| % g == 0
  {
    var done := RowsOf(c, w) - p.rowsToDo;
    assert |before| == done * c.rowSize + p.rowOffset;
    var n := c.rowSize / c.pgroupBytes;
    assert done * c.rowSize == c.pgroupBytes * (done * n) by {
      assert c.rowSize == c.pgroupBytes * n;
    }
    MultipleOf(c.pgroupBytes, done * n);
    MultiplesAdd(done * c.rowSize, p.rowOffset, c.pgroupBytes);
    MultipleOfMultiple(|before|, c.pgroupBytes, g);
  }

  // ---------------------------------------------------------------- A frame, and all frames

  /** Streams one after the other. */
  lemma StreamsJoin(format: Format, frames: seq<WireFrame>, base: nat, a: seq<Sent>, b: seq<Sent>)
    requires IsStream(format, frames, base, a) && IsStream(format, frames, base + |a|, b)
    requires a != [] && b != [] ==> Follows(a[|a| - 1], b[0])
    ensures IsStream(format, frames, base, a + b)
  {
    hide IsPacket;
    var s := a + b;
    forall n | 0 <= n < |s|
      ensures IsSent(format, frames, base, n, s[n])
    {
      if n >= |a| {
        assert IsSent(format, frames, base + |a|, n - |a|, b[n - |a|]);
      }
    }
    forall n | 0 < n < |s|
      ensures Follows(s[n - 1], s[n])
    {
      if n > |a| {
        assert Follows(b[n - |a| - 1], b[n - |a|]);
      }
    }
  }

  /** The packets of a frame are a stream that starts at p and ends with the frame. */
  lemma {:induction false} FrameIsStream(format: Format, frames: seq<WireFrame>, c: TxConfig,
                                         t: Stream, k: nat, p: Place, before: seq<Byte>,
                                         seqNum: nat)
    requires FitsHeaders(c) && StreamFits(t) && FormatFits(format, c) && k < |frames|
    requires IsPlaceIn(c, frames[k], p, before)
    ensures var s := PacketsFrom(c, t, frames[k], k, p, before, seqNum);
      && IsStream(format, frames, seqNum, s)
      && (s != [] <==> p.rowsToDo > 0)
      && (s != [] ==> s[0].before == before && s[0].frame == k
                      && s[|s| - 1].packet.marker && s[|s| - 1].frame == k)
    decreases p.rowsToDo, c.rowSize - p.rowOffset
  {
    if p.rowsToDo > 0 {
      hide IsPlaceIn, IsSent, PacketAt, CutPacket, FitsHeaders, FormatFits, StreamFits, PacketsFrom;
      var w := frames[k];
      PacketIsSent(format, frames, c, t, k, p, before, seqNum);
      PacketsUnfold(c, t, w, k, p, before, seqNum);
      InsideHasPlace(c, w, p, before);
      PacketTags(c, t, w, k, p, before, seqNum);
      var x, end := PacketAt(c, t, w, k, p, before, seqNum), CutPacket(c, p).1;
      FrameIsStream(format, frames, c, t, k, end, before + x.packet.data, seqNum + 1);
      var rest := PacketsFrom(c, t, w, k, end, before + x.packet.data, seqNum + 1);
      FirstJoins(format, frames, seqNum, x, rest, k);
      hide IsStream;
    } else {
      PacketsUnfold(c, t, frames[k], k, p, before, seqNum);
    }
  }

  // A packet, and the packets of the same frame behind it.
  lemma FirstJoins(format: Format, frames: seq<WireFrame>, seqNum: nat, x: Sent, rest: seq<Sent>,
                   k: nat)
    requires IsSent(format, frames, seqNum, 0, x) && IsStream(format, frames, seqNum + 1, rest)
    requires x.packet.marker <==> rest == []
    requires rest != [] ==> rest[0].before == x.before + x.packet.data && rest[0].frame == k
    requires x.frame == k
    ensures IsStream(format, frames, seqNum, [x] + rest)
  {
    hide IsSent;
    assert IsStream(format, frames, seqNum, [x]);
    StreamsJoin(format, frames, seqNum, [x], rest);
  }

  lemma PacketTags(c: TxConfig, t: Stream, w: WireFrame, k: nat, p: Place, before: seq<Byte>,
                   seqNum: nat)
    requires IsPlaceIn(c, w, p, before) && p.rowsToDo > 0
    ensures var x := PacketAt(c, t, w, k, p, before, seqNum);
      && x.frame == k && x.before == before
      && x.packet.marker == (CutPacket(c, p).1.rowsToDo == 0)
      && x.packet.seqNum == seqNum % W32 && x.packet.timestamp == w.timestamp
      && x.packet.srds == RowHeaders(c, RowsOf(c, w), w.field, CutPacket(c, p).0)
  {
  }

  predicate AreFrames(c: TxConfig, frames: seq<WireFrame>) {
    Valid(c) && forall k | 0 <= k < |frames| :: IsFrame(c, frames[k])
  }

  lemma StartOfFrame(c: TxConfig, w: WireFrame)
    requires Valid(c) && IsFrame(c, w)
    ensures IsPlaceIn(c, w, Place(RowsOf(c, w), 0), [])
  {
  }

  /** What sending one frame, or one field, sends. */
  function FramePackets(c: TxConfig, t: Stream, w: WireFrame, k: nat, seqNum: nat): seq<Sent>
    requires Valid(c) && IsFrame(c, w)
  {
    StartOfFrame(c, w);
    PacketsFrom(c, t, w, k, Place(RowsOf(c, w), 0), [], seqNum)
  }

  /** The packets of the frames from number k on, numbered from seqNum on. */
  function AllPackets(c: TxConfig, t: Stream, frames: seq<WireFrame>, k: nat, seqNum: nat): seq<Sent>
    requires AreFrames(c, frames) && k <= |frames|
    decreases |frames| - k
  {
    if k == |frames| then []
    else
      var first := FramePackets(c, t, frames[k], k, seqNum);
      first + AllPackets(c, t, frames, k + 1, seqNum + |first|)
  }

  lemma AllUnfold(c: TxConfig, t: Stream, frames: seq<WireFrame>, k: nat, seqNum: nat)
    requires AreFrames(c, frames) && k < |frames|
    ensures var first := FramePackets(c, t, frames[k], k, seqNum);
      AllPackets(c, t, frames, k, seqNum)
      == first + AllPackets(c, t, frames, k + 1, seqNum + |first|)
  {
    hide FramePackets, AreFrames;
  }

  lemma FrameHasPackets(c: TxConfig, frames: seq<WireFrame>, k: nat)
    requires AreFrames(c, frames) && k < |frames|
    ensures Valid(c) && IsFrame(c, frames[k])
  {
  }

  lemma NoFramesLeft(c: TxConfig, t: Stream, frames: seq<WireFrame>, seqNum: nat)
    requires AreFrames(c, frames)
    ensures AllPackets(c, t, frames, |frames|, seqNum) == []
  {
  }

  /** What the packetizer sends of any frames is a stream the parser can follow. */
  lemma {:induction false} FramesAreAStream(format: Format, frames: seq<WireFrame>, c: TxConfig,
                                            t: Stream, k: nat, seqNum: nat)
    requires FitsHeaders(c) && StreamFits(t) && FormatFits(format, c)
    requires AreFrames(c, frames) && k <= |frames|
    ensures var s := AllPackets(c, t, frames, k, seqNum);
      && IsStream(format, frames, seqNum, s)
      && (s != [] ==> s[0].before == [] && s[0].frame >= k)
    decreases |frames| - k
  {
    hide IsStream, PacketsFrom, AllPackets, AreFrames, FitsHeaders, StreamFits, FormatFits;
    if k == |frames| {
      NoFramesLeft(c, t, frames, seqNum);
      NoStream(format, frames, seqNum);
    } else {
      var w := frames[k];
      FrameHasPackets(c, frames, k);
      StartOfFrame(c, w);
      hide IsFrame, IsPlaceIn, Valid;
      FrameIsStream(format, frames, c, t, k, Place(RowsOf(c, w), 0), [], seqNum);
      var first := FramePackets(c, t, w, k, seqNum);
      FramesAreAStream(format, frames, c, t, k + 1, seqNum + |first|);
      AllUnfold(c, t, frames, k, seqNum);
      StreamsJoin(format, frames, seqNum, first, AllPackets(c, t, frames, k + 1, seqNum + |first|));
    }
  }

  lemma NoStream(format: Format, frames: seq<WireFrame>, base: nat)
    ensures IsStream(format, frames, base, [])
  {
  }

  lemma StreamHasPayloads(format: Format, frames: seq<WireFrame>, base: nat, sent: seq<Sent>)
    requires IsStream(format, frames, base, sent)
    ensures HavePayloads(sent)
  {
    forall n | 0 <= n < |sent|
      ensures 0 <= sent[n].packet.seqNum < W32 && RtpFits(RtpOf(sent[n].packet))
    {
      assert IsSent(format, frames, base, n, sent[n]);
    }
  }

  /**
   * Whatever packets of packetized frames are lost, every frame the parser delivers is one of
   * the frames sent, whole, and they come in the order they were sent.
   */
  lemma PacketizedFramesAreSafe(format: Format, frames: seq<WireFrame>, c: TxConfig, t: Stream,
                                seqNum: nat, received: seq<nat>, tods: seq<nat>, envs: seq<Env>)
    returns (ks: seq<nat>)
    requires FitsHeaders(c) && StreamFits(t) && FormatFits(format, c) && AreFrames(c, frames)
    requires InOrder(received, |AllPackets(c, t, frames, 0, seqNum)|)
    requires |tods| == |envs| == |received|
    ensures var sent := AllPackets(c, t, frames, 0, seqNum);
      && HavePayloads(sent)
      && AreWhole(format, frames,
                  Run(format, INITIAL, Arrivals(sent, received, tods), envs).delivered, 0, ks)
  {
    FramesAreAStream(format, frames, c, t, 0, seqNum);
    var sent := AllPackets(c, t, frames, 0, seqNum);
    StreamHasPayloads(format, frames, seqNum, sent);
    ks := LossSafety(format, frames, seqNum, sent, received, tods, envs);
  }
}
