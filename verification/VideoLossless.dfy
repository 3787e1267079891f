// Nothing lost: the parser learns the size from the first frame and delivers all the others.

module VideoLossless {
  import opened Arithmetic
  import opened Bytes
  import opened Headers
  import opened VideoCut
  import opened VideoPackets
  import opened VideoParser
  import opened VideoSafety
  import opened VideoStream
  import MediaTime

  const NO_ERRORS := Stats(0, 0, 0, 0, 0, 0)

  predicate IsFielded(c: TxConfig) {
    c.isInterlaced || c.isPsf
  }

  /** The highest row number of a frame or field, plus one. */
  function LastRow(c: TxConfig, rows: int): int {
    (rows - 1) * RowStep(c) + 1
  }

  /** The size the parser learns from a first frame or field of so many rows. */
  function LearnedSize(c: TxConfig, rows: int): int {
    (LastRow(c, rows) + if IsFielded(c) then 1 else 0) * c.rowSize
  }

  // ---------------------------------------------------------------- What is counted

  // The bytes of a row that the segments of a packet leave off at.
  lemma {:induction false} RowBytesOfSegments(c: TxConfig, rows: nat, field: bool, p: Place,
                                              segments: seq<Segment>, end: Place, r: int)
    requires FitsHeaders(c) && rows <= c.numRows && p.rowsToDo <= rows
    requires AreSegments(c, p, segments, end) && segments != []
    requires r == p.rowOffset || p.rowOffset == 0
    ensures RowBytes(r, RowHeaders(c, rows, field, segments))
         == if end.rowOffset == 0 then c.rowSize else end.rowOffset
    decreases |segments|
  {
    var s := segments[0];
    var q := Advance(c, p, s.length);
    HeaderFits(c, rows, p);
    if |segments| > 1 {
      RowBytesOfSegments(c, rows, field, q, segments[1..], end, p.rowOffset + s.length);
    }
  }

  /** How many rows the packets up to a place have something of. */
  function RowsSeen(rows: nat, p: Place): int {
    rows - p.rowsToDo + if p.rowOffset == 0 then 0 else 1
  }

  // The row of the last segment of a packet is the last one seen.
  lemma {:induction false} LastSegment(c: TxConfig, rows: nat, field: bool, p: Place,
                                       segments: seq<Segment>, end: Place)
    requires c.pgroupBytes > 0 && AreSegments(c, p, segments, end) && segments != []
    ensures var srds := RowHeaders(c, rows, field, segments);
      srds[|srds| - 1].row + 1 == LastRow(c, RowsSeen(rows, end))
    decreases |segments|
  {
    if |segments| > 1 {
      LastSegment(c, rows, field, Advance(c, p, segments[0].length), segments[1..], end);
    }
  }

  // ---------------------------------------------------------------- The step between rows

  /**
   * Whether the parser takes a first frame for 4:2:0 video that it takes for that, or not, up
   * to p: it goes by the last packet that has something of further rows than the one before.
   */
  predicate SeemsFrom(c: TxConfig, rows: nat, p: Place, flag: bool)
    requires Valid(c) && IsPlace(c, p) && p.rowOffset % c.pgroupBytes == 0
    decreases p.rowsToDo, c.rowSize - p.rowOffset
  {
    if p.rowsToDo == 0 then flag
    else
      var end := CutPacket(c, p).1;
      var more := RowsSeen(rows, end) - RowsSeen(rows, p);
      SeemsFrom(c, rows, end,
                if RowsSeen(rows, p) == 0 || more == 0 then flag else more * RowStep(c) == 2)
  }

  predicate Seems420(c: TxConfig, rows: nat)
    requires Valid(c)
  {
    SeemsFrom(c, rows, Place(rows, 0), false)
  }

  // ---------------------------------------------------------------- Learning

  /** A parser that has seen the packets of a first frame w up to p, and none lost. */
  ghost predicate IsLearning(c: TxConfig, w: WireFrame, p: Place, before: seq<Byte>,
                             seqNum: nat, s: RxState) {
    if before == [] then s == INITIAL
    else
      && s.isWaiting && s.calculatedSize == -1 && s.partial == NoFrame && s.delivered == []
      && s.stats == NO_ERRORS && s.inBytes == 0 == s.outBytes
      && s.countedSize == |before| && s.lastSeq == (seqNum - 1) % W32
      && s.isInterlaced == w.field
      && s.rowSize == (if p.rowOffset == 0 then c.rowSize else p.rowOffset)
      && IsPlaceIn(c, w, p, before) && s.prevRows == LastRow(c, RowsSeen(RowsOf(c, w), p))
      && s.prevRows != -1
      && SeemsFrom(c, RowsOf(c, w), p, s.is420) == Seems420(c, RowsOf(c, w))
  }

  /** A parser that has seen all of a first frame. */
  ghost predicate HasLearned(c: TxConfig, w: WireFrame, seqNum: nat, s: RxState) {
    && !s.isWaiting && s.calculatedSize == -1 && s.partial == NoFrame && s.delivered == []
    && s.stats == NO_ERRORS && s.inBytes == 0 == s.outBytes
    && s.countedSize == |w.wire| && s.lastSeq == (seqNum - 1) % W32
    && s.isInterlaced == w.field && s.rowSize == c.rowSize
    && s.numRows == s.countedRows == LastRow(c, RowsOf(c, w))
    && Valid(c) && s.is420 == Seems420(c, RowsOf(c, w))
  }

  // What counting makes of the next packet, in terms of its rows.
  lemma CountGoesOn(s: RxState, srds: seq<Srd>, seqNum: nat)
    requires srds != []
    requires (s.countedSize == -1 && srds[0].row == 0 && srds[0].offset == 0)
             || (s.countedSize >= 0 && seqNum % W32 == (s.lastSeq + 1) % W32)
    requires srds[0].offset == 0 || s.rowSize != -1
    ensures var t := CountFrameSize(s, srds, seqNum % W32);
      && t.countedSize == (if s.countedSize == -1 then 0 else s.countedSize) + DataBytes(srds)
      && t.countedRows == t.numRows == srds[|srds| - 1].row + 1
      && t.rowSize == RowBytes(if srds[0].offset == 0 then 0 else s.rowSize, srds)
      && t.prevRows == t.numRows
      && t.is420 == (if s.prevRows != -1 && s.prevRows != t.numRows then t.numRows - s.prevRows == 2
                     else s.is420)
      && t == s.(countedSize := t.countedSize, countedRows := t.countedRows,
                 numRows := t.numRows, rowSize := t.rowSize, prevRows := t.prevRows,
                 is420 := t.is420, lastSeq := t.lastSeq)
  {
  }

  lemma SequenceGoesOn(seqNum: nat)
    ensures ((seqNum - 1) % W32 + 1) % W32 == seqNum % W32
  {
  }

  // One packet more of a first frame.
  lemma StepGoesOn(c: TxConfig, rows: nat, p: Place, end: Place, flag: bool)
    requires Valid(c) && IsPlace(c, p) && p.rowOffset % c.pgroupBytes == 0 && p.rowsToDo > 0
    requires end == CutPacket(c, p).1 && p.rowsToDo <= rows
    ensures IsPlace(c, end) && end.rowOffset % c.pgroupBytes == 0
    ensures LastRow(c, RowsSeen(rows, end)) > 0 && (end.rowsToDo == 0 ==> RowsSeen(rows, end) == rows)
    ensures RowsSeen(rows, p) == 0 <==> p == Place(rows, 0)
    ensures var prev, now := LastRow(c, RowsSeen(rows, p)), LastRow(c, RowsSeen(rows, end));
      SeemsFrom(c, rows, p, flag)
      == SeemsFrom(c, rows, end, if p == Place(rows, 0) || prev == now then flag
                                 else now - prev == 2)
    ensures end.rowsToDo == 0 ==> forall f :: SeemsFrom(c, rows, end, f) == f
  {
    hide CutPacket;
  }

  // A packet of the first frame is counted.
  lemma LearningStep(format: Format, c: TxConfig, t: Stream, w: WireFrame, k: nat, p: Place,
                     before: seq<Byte>, seqNum: nat, s: RxState)
    requires FitsHeaders(c) && StreamFits(t) && FormatFits(format, c)
    requires IsPlaceIn(c, w, p, before) && p.rowsToDo > 0
    requires IsLearning(c, w, p, before, seqNum, s)
    ensures var x, end := PacketAt(c, t, w, k, p, before, seqNum), CutPacket(c, p).1;
      var s1 := s.(isInterlaced := s.isInterlaced || w.field);
      var u := Learn(s1, x.packet.marker, x.packet.srds, x.packet.seqNum);
      if end.rowsToDo == 0 then HasLearned(c, w, seqNum + 1, u)
      else IsLearning(c, w, end, before + x.packet.data, seqNum + 1, u)
  {
    hide CutPacket, AreSegments, CountFrameSize, RowBytes, LastRow;
    PlaceFacts(c, w, p, before);
    var (segments, end) := CutPacket(c, p);
    PacketIsSound(c, p);
    NextPlace(c, t, w, k, p, before, seqNum);
    PacketTags(c, t, w, k, p, before, seqNum);
    RowsFit(c, w);
    RowHeadersAreSound(format, c, RowsOf(c, w), w.field, p, segments, end);
    FirstSegment(c, p, segments, end);
    HeaderFits(c, RowsOf(c, w), p);
    RowBytesOfSegments(c, RowsOf(c, w), w.field, p, segments, end, p.rowOffset);
    LastSegment(c, RowsOf(c, w), w.field, p, segments, end);
    StepGoesOn(c, RowsOf(c, w), p, end, s.is420);
    var srds := RowHeaders(c, RowsOf(c, w), w.field, segments);
    SequenceGoesOn(seqNum);
    CountGoesOn(s.(isInterlaced := s.isInterlaced || w.field), srds, seqNum);
  }

  // ---------------------------------------------------------------- Receiving

  /** No packet lost, and nothing refused: count frames are delivered, without an error. */
  predicate IsClean(s: RxState, seqNum: nat, count: nat) {
    && !s.isWaiting && s.lastSeq == (seqNum - 1) % W32
    && |s.delivered| == count && s.stats == NO_ERRORS.(framesOk := count)
  }

  /** What is learned of frames, the first of which has so many rows. */
  ghost predicate KnowsSize(c: TxConfig, rows: nat, s: RxState) {
    && s.calculatedSize == LearnedSize(c, rows)
    && s.isInterlaced == IsFielded(c)
    && s.rowSize == c.rowSize && s.numRows == LastRow(c, rows)
    && Valid(c) && s.is420 == Seems420(c, rows)
  }

  /** The frames of a source: progressive, or fields of which the parity alternates. */
  predicate IsSource(c: TxConfig, frames: seq<WireFrame>) {
    && AreFrames(c, frames)
    && (forall k | 0 <= k < |frames| :: RowsOf(c, frames[k]) > 0)
    && if IsFielded(c)
       then forall k | 0 < k < |frames| :: frames[k].field != frames[k - 1].field
       else forall k | 0 <= k < |frames| :: !frames[k].field
  }

  /** The size learned is one that fits an int. */
  predicate SizeFits(c: TxConfig) {
    (c.numRows * RowStep(c) + 1) * c.rowSize <= INT_MAX
  }

  // The size learned from a first frame has room for each frame of the source.
  lemma SizeHasRoom(c: TxConfig, rows: nat, w: WireFrame)
    requires FitsHeaders(c) && SizeFits(c) && IsFrame(c, w)
    requires rows > 0 && (rows == RowsInField(c, 0) || rows == RowsInField(c, 1))
    ensures 0 < LearnedSize(c, rows) <= INT_MAX && |w.wire| <= LearnedSize(c, rows)
  {
    var all := LastRow(c, rows) + if IsFielded(c) then 1 else 0;
    RowsAreFew(c, rows, w);
    hide LastRow, RowsOf, RowsInField, RowStep, IsFielded;
    assert all <= c.numRows * RowStep(c) + 1;
    assert RowsOf(c, w) <= all;
    MulMonotone(all, c.numRows * RowStep(c) + 1, c.rowSize);
    MulMonotone(RowsOf(c, w), all, c.rowSize);
    MulMonotone(1, all, c.rowSize);
  }

  lemma RowsAreFew(c: TxConfig, rows: nat, w: WireFrame)
    requires rows > 0 && (rows == RowsInField(c, 0) || rows == RowsInField(c, 1))
    ensures var all := LastRow(c, rows) + if IsFielded(c) then 1 else 0;
      RowsOf(c, w) <= all <= c.numRows * RowStep(c) + 1 && 0 < all
  {
  }

  // What was counted, with a row added, is no more than the rows times their size.
  lemma CountedIsBelow(rows: nat, rowSize: nat, last: nat)
    requires 0 < rows <= last
    ensures rows * rowSize <= last * rowSize
    ensures rows * rowSize / last <= rowSize
    ensures (last + 1) * rowSize == last * rowSize + rowSize
  {
    MulMonotone(rows, last, rowSize);
    DivMonotone(rows * rowSize, last * rowSize, last);
    MultipleOf(last, rowSize);
  }

  lemma RowsAreBelowLast(c: TxConfig, rows: nat)
    requires rows > 0
    ensures LastRow(c, rows) >= rows
  {
  }

  /** What the parser goes by when it works out the size after a first frame w. */
  ghost predicate HasCounted(c: TxConfig, w: WireFrame, s: RxState) {
    && s.calculatedSize == -1 && s.countedSize == |w.wire| && s.rowSize == c.rowSize
    && s.numRows == s.countedRows == LastRow(c, RowsOf(c, w))
    && Valid(c) && s.is420 == Seems420(c, RowsOf(c, w))
  }

  // The size worked out after a first frame, once the field bits are known.
  lemma SizeIsLearned(c: TxConfig, w: WireFrame, s: RxState)
    requires FitsHeaders(c) && SizeFits(c) && IsFrame(c, w) && RowsOf(c, w) > 0
    requires HasCounted(c, w, s) && s.isInterlaced == IsFielded(c)
    ensures var t := CalculateFrameSize(s);
      && KnowsSize(c, RowsOf(c, w), t) && t.calculatedSize > 0
      && t == s.(countedSize := t.countedSize, calculatedSize := t.calculatedSize)
  {
    hide LastRow, SizeFits, FitsHeaders;
    SizeHasRoom(c, RowsOf(c, w), w);
    RowsAreBelowLast(c, RowsOf(c, w));
    CountedIsBelow(RowsOf(c, w), c.rowSize, LastRow(c, RowsOf(c, w)));
  }

  // ---------------------------------------------------------------- One frame

  /** What a delivered frame is: the frame sent, with the rows it has or that were learned. */
  ghost predicate IsReceived(format: Format, c: TxConfig, rows: nat, f: Frame, w: WireFrame) {
    && IsWhole(format, f, w)
    && f.numRows == (if IsFielded(c) then RowsOf(c, w) else LastRow(c, rows))
    && Valid(c) && f.is420 == Seems420(c, rows)
  }

  /** Between frames: count are delivered, the next is w, the first one was first. */
  ghost predicate IsBetween(c: TxConfig, first: WireFrame, w: WireFrame, seqNum: nat, count: nat,
                            s: RxState) {
    && IsClean(s, seqNum, count) && s.partial == NoFrame && s.inBytes == 0
    && (KnowsSize(c, RowsOf(c, first), s)
        || (HasCounted(c, first, s) && (s.isInterlaced || w.field) == IsFielded(c)))
  }

  /** The frame being received has the times of its first packet. */
  predicate IsStamped(s: RxState, w: WireFrame, start: nat) {
    && s.partial.Partial? && s.partial.rtpTime == w.timestamp
    && s.partial.tod == MediaTime.FromNs(start)
  }

  /** When the first packet came, after one more at todNs. */
  function StartOf(before: seq<Byte>, start: nat, todNs: nat): nat {
    if before == [] then todNs else start
  }

  /** Inside a frame w, before of which has been received, the first packet at start. */
  ghost predicate IsInside(format: Format, c: TxConfig, first: WireFrame, w: WireFrame, start: nat,
                           before: seq<Byte>, seqNum: nat, count: nat, s: RxState) {
    && IsClean(s, seqNum, count) && KnowsSize(c, RowsOf(c, first), s)
    && s.partial.Partial? && HasPrefix(format, s, before)
    && (before != [] ==> IsStamped(s, w, start))
  }

  /** Frames of one source: what of them matters to each other. */
  predicate AreAlike(c: TxConfig, first: WireFrame, w: WireFrame) {
    && FitsHeaders(c) && SizeFits(c) && IsFrame(c, first) && IsFrame(c, w)
    && RowsOf(c, first) > 0 && RowsOf(c, w) > 0
    && (w.field ==> IsFielded(c)) && (first.field ==> IsFielded(c))
  }

  // The first packet of a frame gets it a buffer, of a size known or worked out now.
  lemma FrameBegins(format: Format, c: TxConfig, first: WireFrame, w: WireFrame,
                    start: nat, seqNum: nat, count: nat, s: RxState, isEnd: bool,
                    srds: seq<Srd>, env: Env)
    requires AreAlike(c, first, w) && Inv(s) && env.hasMemory
    requires IsBetween(c, first, w, seqNum, count, s)
    requires srds != [] && srds[|srds| - 1].field == w.field
    requires s.calculatedSize == -1 ==> s.isInterlaced == IsFielded(c)
    ensures var (t, hasFrame) := BeginFrame(s, isEnd, srds, env);
      && hasFrame && IsInside(format, c, first, w, start, [], seqNum, count, t)
      && t.delivered == s.delivered
  {
    hide KnowsSize, HasCounted, CalculateFrameSize, GetFrame, HasPrefix, Inv;
    NotBoth(c, first, s);
    if s.calculatedSize == -1 {
      SizeIsLearned(c, first, s);
    }
    GetsFrame(format, c, first, w, start, seqNum, count, EnsureSize(s, srds), isEnd, env);
  }

  lemma GetsFrame(format: Format, c: TxConfig, first: WireFrame, w: WireFrame, start: nat, seqNum: nat,
                  count: nat, s: RxState, isEnd: bool, env: Env)
    requires Inv(s) && s.partial == NoFrame && env.hasMemory && s.calculatedSize > 0
    requires IsClean(s, seqNum, count) && KnowsSize(c, RowsOf(c, first), s)
    ensures var (t, hasFrame) := GetFrame(s, isEnd, env);
      && hasFrame && IsInside(format, c, first, w, start, [], seqNum, count, t)
      && t.delivered == s.delivered
  {
    hide HasPrefix;
    EmptyPrefix(format, GetFrame(s, isEnd, env).0);
  }

  // What is known and what is only counted exclude each other.
  lemma NotBoth(c: TxConfig, first: WireFrame, s: RxState)
    requires FitsHeaders(c) && SizeFits(c) && IsFrame(c, first) && RowsOf(c, first) > 0
    ensures KnowsSize(c, RowsOf(c, first), s) ==> s.calculatedSize > 0
    ensures HasCounted(c, first, s) ==> s.calculatedSize == -1
  {
    SizeHasRoom(c, RowsOf(c, first), first);
  }

  // ---------------------------------------------------------------- Packets of a frame

  // Whole rows are as many lines of what they are converted to.
  lemma LinesOfRows(format: Format, rows: nat, rowSize: nat)
    requires rowSize > 0 && rowSize % GroupBytes(format) == 0
    ensures LineSize(format, rowSize) > 0
    ensures OutBytes(format, rows * rowSize) / LineSize(format, rowSize) == rows
    ensures rows * rowSize % GroupBytes(format) == 0
  {
    var g := GroupBytes(format);
    var n := rowSize / g;
    RowsOfGroups(rows, n, g);
    MultipleOf(rowSize, rows);
    if format.Uyvy10To8? {
      RowsOfGroups(rows, n, 4);
      MultipleOf(n * 4, rows);
    }
  }

  lemma RowsOfGroups(rows: nat, n: nat, g: nat)
    requires g > 0
    ensures rows * (n * g) == g * (rows * n) && rows * (n * g) % g == 0
    ensures rows * (n * g) / g == rows * n && rows * (n * g) / g * g == rows * (n * g)
  {
    assert rows * (n * g) == g * (rows * n);
    MultipleOf(g, rows * n);
  }

  // What KnowsSize and IsClean speak of.
  lemma SizeStaysKnown(c: TxConfig, rows: nat, s: RxState, t: RxState)
    requires KnowsSize(c, rows, s)
    requires t.calculatedSize == s.calculatedSize && t.isInterlaced == s.isInterlaced
    requires t.rowSize == s.rowSize && t.numRows == s.numRows && t.is420 == s.is420
    ensures KnowsSize(c, rows, t)
  {
  }

  /** Frame w, of which the first packet came at start, is delivered; the next may be any. */
  ghost predicate HasDelivered(format: Format, c: TxConfig, first: WireFrame, w: WireFrame, start: nat,
                               seqNum: nat, count: nat, s: RxState, t: RxState) {
    && IsClean(t, seqNum, count + 1) && t.partial == NoFrame && t.inBytes == 0
    && KnowsSize(c, RowsOf(c, first), t)
    && |t.delivered| == |s.delivered| + 1 && t.delivered[..|s.delivered|] == s.delivered
    && IsReceived(format, c, RowsOf(c, first), t.delivered[|s.delivered|], w)
    && t.delivered[|s.delivered|].tod == MediaTime.FromNs(start)
  }

  lemma DeliverySucceeds(format: Format, c: TxConfig, first: WireFrame, w: WireFrame, start: nat,
                         seqNum: nat, count: nat, s: RxState)
    requires AreAlike(c, first, w) && FormatFits(format, c)
    requires IsInside(format, c, first, w, start, w.wire, seqNum, count, s) && w.wire != []
    ensures HasDelivered(format, c, first, w, start, seqNum, count, s,
                         Deliver(format, s, w.field, true))
  {
    hide Holds, AreAlike, LastRow, FormatFits;
    RowsInGroups(format, c, w, first);
    LinesOfRows(format, RowsOf(c, w), c.rowSize);
    hide LineSize, OutBytes, KnowsSize, RowsOf;
    SizeStaysKnown(c, RowsOf(c, first), s, Deliver(format, s, w.field, true));
    KnownFacts(c, RowsOf(c, first), s);
  }

  lemma KnownFacts(c: TxConfig, rows: nat, s: RxState)
    requires KnowsSize(c, rows, s)
    ensures s.rowSize == c.rowSize && s.isInterlaced == IsFielded(c) && s.numRows == LastRow(c, rows)
    ensures s.calculatedSize == LearnedSize(c, rows) && Valid(c) && s.is420 == Seems420(c, rows)
  {
  }

  lemma RowsInGroups(format: Format, c: TxConfig, w: WireFrame, first: WireFrame)
    requires AreAlike(c, first, w) && FormatFits(format, c)
    ensures c.rowSize > 0 && c.rowSize % GroupBytes(format) == 0
    ensures |w.wire| == RowsOf(c, w) * c.rowSize
  {
    hide RowsOf, SizeFits;
    MultipleOfMultiple(c.rowSize, c.pgroupBytes, GroupBytes(format));
  }

  // Stamped, a frame that is begun or under way is as it was.
  lemma StampKeepsInside(format: Format, c: TxConfig, first: WireFrame, w: WireFrame, start: nat,
                         before: seq<Byte>, seqNum: nat, count: nat, s: RxState, todNs: nat)
    requires Inv(s) && IsInside(format, c, first, w, start, before, seqNum, count, s)
    ensures var t := StampFrame(s, w.timestamp, todNs);
      && Inv(t) && t.delivered == s.delivered
      && IsInside(format, c, first, w, StartOf(before, start, todNs), before, seqNum, count, t)
      && IsStamped(t, w, StartOf(before, start, todNs))
  {
    hide KnowsSize, Holds;
    SizeStaysKnown(c, RowsOf(c, first), s, StampFrame(s, w.timestamp, todNs));
  }

  lemma AppendStaysInside(format: Format, c: TxConfig, first: WireFrame, w: WireFrame, start: nat,
                          before: seq<Byte>, seqNum: nat, count: nat, s: RxState, srds: seq<Srd>,
                          src: seq<Byte>)
    requires AreAlike(c, first, w)
    requires Inv(s) && IsInside(format, c, first, w, start, before, seqNum, count, s)
    requires IsStamped(s, w, start) && before + src <= w.wire
    requires AllFit(srds) && WholeGroups(format, srds) && DataBytes(srds) == |src|
    ensures var t := AppendSegments(format, s, srds, src);
      && IsInside(format, c, first, w, start, before + src, seqNum, count, t)
      && t.delivered == s.delivered
  {
    hide KnowsSize, AppendSegments, AllFit, WholeGroups, AreAlike, HasPrefix, Inv;
    AppendAll(format, s, before, srds, src);
    ThereIsRoom(format, c, first, w, before, s, src);
    hide LearnedSize;
    SizeStaysKnown(c, RowsOf(c, first), s, AppendSegments(format, s, srds, src));
  }

  lemma ThereIsRoom(format: Format, c: TxConfig, first: WireFrame, w: WireFrame,
                    before: seq<Byte>, s: RxState, src: seq<Byte>)
    requires AreAlike(c, first, w) && before + src <= w.wire
    requires HasPrefix(format, s, before) && KnowsSize(c, RowsOf(c, first), s)
    ensures s.inBytes + |src| <= s.calculatedSize
  {
    hide Holds, LearnedSize, IsFrame, SizeFits, FitsHeaders, IsFielded, RowsOf;
    SizeOfAlike(c, first, w);
  }

  lemma SizeOfAlike(c: TxConfig, first: WireFrame, w: WireFrame)
    requires AreAlike(c, first, w)
    ensures |w.wire| <= LearnedSize(c, RowsOf(c, first))
  {
    SizeHasRoom(c, RowsOf(c, first), w);
  }

  /** What a packet of frame w must be for the parser: the next part of it. */
  ghost predicate IsNextPart(format: Format, w: WireFrame, before: seq<Byte>, p: Packet) {
    && IsPacket(p, w.field) && WholeGroups(format, p.srds) && p.timestamp == w.timestamp
    && before + p.data <= w.wire && (p.marker <==> before + p.data == w.wire)
  }

  lemma PacketIsNextPart(format: Format, c: TxConfig, t: Stream, w: WireFrame, k: nat, p: Place,
                         before: seq<Byte>, seqNum: nat)
    requires FitsHeaders(c) && StreamFits(t) && FormatFits(format, c)
    requires IsPlaceIn(c, w, p, before) && p.rowsToDo > 0
    ensures var x := PacketAt(c, t, w, k, p, before, seqNum);
      IsNextPart(format, w, before, x.packet) && x.packet.seqNum == seqNum % W32
  {
    hide IsPlaceIn, PacketAt, FitsHeaders, FormatFits, IsPacket;
    var frames := seq(k + 1, _ => w);
    PacketIsSent(format, frames, c, t, k, p, before, seqNum);
    PacketTags(c, t, w, k, p, before, seqNum);
  }

  // The segments of a packet go into the frame, and its last packet delivers it.
  lemma FrameGoesOn(format: Format, c: TxConfig, first: WireFrame, w: WireFrame, start: nat,
                    before: seq<Byte>, seqNum: nat, count: nat, s: RxState, p: Packet,
                    todNs: nat, env: Env)
    requires AreAlike(c, first, w) && FormatFits(format, c) && IsNextPart(format, w, before, p)
    requires Inv(s) && IsInside(format, c, first, w, start, before, seqNum, count, s) && env.accepts
    ensures AllFit(p.srds)
    ensures var t, begun := FillFrame(format, s, RtpOf(p), p.srds, p.data, todNs, env),
                            StartOf(before, start, todNs);
      if p.marker then HasDelivered(format, c, first, w, begun, seqNum, count, s, t)
      else IsInside(format, c, first, w, begun, before + p.data, seqNum, count, t)
           && t.delivered == s.delivered
  {
    hide IsPacket, AreAlike, FormatFits, AppendSegments, StampFrame, Deliver, WholeGroups;
    hide KnowsSize, HasPrefix, Inv, IsReceived, IsClean;
    FieldOfPacket(p, w.field);
    DataIsThere(p, w.field);
    SegmentsAreData(p, w.field);
    StampKeepsInside(format, c, first, w, start, before, seqNum, count, s, todNs);
    var s1, begun := StampFrame(s, w.timestamp, todNs), StartOf(before, start, todNs);
    AppendStaysInside(format, c, first, w, begun, before, seqNum, count, s1, p.srds, p.data);
    if p.marker {
      DeliverySucceeds(format, c, first, w, begun, seqNum, count,
                       AppendSegments(format, s1, p.srds, p.data));
    }
  }

  lemma SegmentsAreData(p: Packet, field: bool)
    requires IsPacket(p, field)
    ensures DataBytes(p.srds) == |p.data| && p.srds != []
    ensures p.srds[|p.srds| - 1].field == field
  {
  }

  /** The parser is at a place of frame w: between frames, or inside it. */
  ghost predicate IsAt(format: Format, c: TxConfig, first: WireFrame, w: WireFrame, start: nat,
                       before: seq<Byte>, seqNum: nat, count: nat, s: RxState) {
    if before == [] then IsBetween(c, first, w, seqNum, count, s)
    else IsInside(format, c, first, w, start, before, seqNum, count, s)
  }

  // The packet is the one expected, and there is a frame for it.
  lemma PacketIsExpected(format: Format, c: TxConfig, first: WireFrame, w: WireFrame, start: nat,
                         before: seq<Byte>, seqNum: nat, count: nat, s: RxState, p: Packet,
                         env: Env)
    requires AreAlike(c, first, w) && Inv(s) && IsPacket(p, w.field) && env.hasMemory
    requires IsAt(format, c, first, w, start, before, seqNum, count, s) && p.seqNum == seqNum % W32
    ensures !(w.field && !s.isInterlaced && s.calculatedSize != -1) && !s.isWaiting
    ensures var s1 := s.(isInterlaced := s.isInterlaced || w.field);
      var (s2, isGoingOn) := CheckSequence(s1, p.marker, p.srds, p.seqNum);
      && isGoingOn && Inv(s2)
      && var (s3, hasFrame) := BeginFrame(s2, p.marker, p.srds, env);
         && hasFrame && IsInside(format, c, first, w, start, before, seqNum + 1, count, s3)
         && s3.delivered == s.delivered
  {
    hide IsPacket, IsBetween, IsInside, CheckSequence, BeginFrame, Inv, AreAlike;
    SegmentsAreData(p, w.field);
    var s2 := s.(isInterlaced := s.isInterlaced || w.field, lastSeq := seqNum % W32);
    if before == [] {
      BetweenGoesOn(c, first, w, seqNum, count, s, p.marker, p.srds);
      FrameBegins(format, c, first, w, start, seqNum + 1, count, s2, p.marker, p.srds, env);
    } else {
      InsideGoesOn(format, c, first, w, start, before, seqNum, count, s, p.marker, p.srds, env);
    }
  }

  lemma BetweenGoesOn(c: TxConfig, first: WireFrame, w: WireFrame, seqNum: nat, count: nat,
                      s: RxState, isEnd: bool, srds: seq<Srd>)
    requires AreAlike(c, first, w) && Inv(s) && IsBetween(c, first, w, seqNum, count, s)
    ensures !(w.field && !s.isInterlaced && s.calculatedSize != -1) && !s.isWaiting
    ensures var s2 := s.(isInterlaced := s.isInterlaced || w.field, lastSeq := seqNum % W32);
      && CheckSequence(s.(isInterlaced := s.isInterlaced || w.field), isEnd, srds, seqNum % W32)
         == (s2, true)
      && Inv(s2) && IsBetween(c, first, w, seqNum + 1, count, s2)
      && (s2.calculatedSize == -1 ==> s2.isInterlaced == IsFielded(c))
  {
    hide IsFielded, LearnedSize, LastRow, IsFrame, RowsOf, FitsHeaders, SizeFits;
    NotBoth(c, first, s);
    SequenceGoesOn(seqNum);
  }

  lemma InsideGoesOn(format: Format, c: TxConfig, first: WireFrame, w: WireFrame, start: nat,
                     before: seq<Byte>, seqNum: nat, count: nat, s: RxState, isEnd: bool,
                     srds: seq<Srd>, env: Env)
    requires AreAlike(c, first, w) && Inv(s)
    requires IsInside(format, c, first, w, start, before, seqNum, count, s)
    ensures !(w.field && !s.isInterlaced && s.calculatedSize != -1) && !s.isWaiting
    ensures var s2 := s.(isInterlaced := s.isInterlaced || w.field, lastSeq := seqNum % W32);
      && CheckSequence(s.(isInterlaced := s.isInterlaced || w.field), isEnd, srds, seqNum % W32)
         == (s2, true)
      && Inv(s2) && IsInside(format, c, first, w, start, before, seqNum + 1, count, s2)
      && BeginFrame(s2, isEnd, srds, env) == (s2, true)
  {
    hide IsFielded, LearnedSize, LastRow, IsFrame, RowsOf, FitsHeaders, SizeFits, Holds;
    SequenceGoesOn(seqNum);
  }

  /** A packet of a frame, none lost before it: the next part of the frame, or its delivery. */
  lemma PacketGoesOn(format: Format, c: TxConfig, first: WireFrame, w: WireFrame, start: nat,
                     before: seq<Byte>, seqNum: nat, count: nat, s: RxState, p: Packet,
                     todNs: nat, env: Env)
    requires AreAlike(c, first, w) && FormatFits(format, c) && IsNextPart(format, w, before, p)
    requires Inv(s) && env.hasMemory && env.accepts
    requires IsAt(format, c, first, w, start, before, seqNum, count, s) && p.seqNum == seqNum % W32
    ensures var t, begun := HandlePacket(format, s, p, w.field, todNs, env),
                            StartOf(before, start, todNs);
      if p.marker then HasDelivered(format, c, first, w, begun, seqNum + 1, count, s, t)
      else IsAt(format, c, first, w, begun, before + p.data, seqNum + 1, count, t)
           && t.delivered == s.delivered
  {
    hide IsAt, IsInside, HasDelivered, FillFrame, CheckSequence, BeginFrame, Inv, IsPacket;
    hide AreAlike, FormatFits, WholeGroups;
    PacketIsExpected(format, c, first, w, start, before, seqNum, count, s, p, env);
    FieldOfPacket(p, w.field);
    DataIsThere(p, w.field);
    SegmentsAreData(p, w.field);
    var s1 := s.(isInterlaced := s.isInterlaced || w.field);
    var s2 := CheckSequence(s1, p.marker, p.srds, p.seqNum).0;
    var s3 := BeginFrame(s2, p.marker, p.srds, env).0;
    FrameGoesOn(format, c, first, w, start, before, seqNum + 1, count, s3, p, todNs, env);
    var t, begun := FillFrame(format, s3, RtpOf(p), p.srds, p.data, todNs, env),
                    StartOf(before, start, todNs);
    if p.marker {
      SameDelivery(format, c, first, w, begun, seqNum + 1, count, s3, s, t);
    } else {
      InsideIsAt(format, c, first, w, begun, before + p.data, seqNum + 1, count, t);
    }
  }

  lemma SameDelivery(format: Format, c: TxConfig, first: WireFrame, w: WireFrame, start: nat,
                     seqNum: nat, count: nat, r: RxState, s: RxState, t: RxState)
    requires r.delivered == s.delivered
    requires HasDelivered(format, c, first, w, start, seqNum, count, r, t)
    ensures HasDelivered(format, c, first, w, start, seqNum, count, s, t)
  {
  }

  lemma InsideIsAt(format: Format, c: TxConfig, first: WireFrame, w: WireFrame, start: nat,
                   before: seq<Byte>, seqNum: nat, count: nat, s: RxState)
    requires IsInside(format, c, first, w, start, before, seqNum, count, s) && before != []
    ensures IsAt(format, c, first, w, start, before, seqNum, count, s)
  {
  }
}
