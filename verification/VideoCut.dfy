// Source/AvFifo/DtSt2110Video.c, transmission: how rows are cut into packets.

module VideoCut {
  import opened Arithmetic

  /** What the packetizer is set up with; the sizes are bytes. */
  datatype TxConfig = TxConfig(numRows: nat, rowSize: nat, pgroupBytes: nat, pgroupPixels: nat,
                               oneLinePerPacket: bool, is420: bool, isInterlaced: bool,
                               isPsf: bool, payloadSize: nat)

  /** Rows and payloads are whole pixel groups. */
  predicate Valid(c: TxConfig) {
    && 0 < c.pgroupBytes && 0 < c.pgroupPixels
    && 0 < c.rowSize && c.rowSize % c.pgroupBytes == 0
    && 0 < c.payloadSize && c.payloadSize % c.pgroupBytes == 0
  }

  /** Both fields together have the frame's rows; they differ by one when those are odd. */
  function RowsInField(c: TxConfig, field: int): nat {
    if !c.isInterlaced && !c.isPsf then c.numRows
    else c.numRows / 2 + if field == 0 && c.numRows % 2 != 0 then 1 else 0
  }

  /** The rows of a frame are shared out to its fields; the first has the one more, if any. */
  lemma FieldsShareRows(c: TxConfig)
    ensures var first, second := RowsInField(c, 0), RowsInField(c, 1);
      if c.isInterlaced || c.isPsf
      then first + second == c.numRows && (first == second || first == second + 1)
      else first == second == c.numRows
  {
  }

  // ---------------------------------------------------------------- The walk over rows

  /** Where the walk is: rows to go, and bytes of the current one that are done. */
  datatype Place = Place(rowsToDo: nat, rowOffset: nat)

  predicate IsPlace(c: TxConfig, p: Place) {
    if p.rowsToDo == 0 then p.rowOffset == 0 else p.rowOffset < c.rowSize
  }

  /** The bytes still to do. */
  function Left(c: TxConfig, p: Place): int {
    p.rowsToDo * c.rowSize - p.rowOffset
  }

  function NumRowHeaders(c: TxConfig, rowBytesToDo: int, rowsToDo: int): int {
    if c.oneLinePerPacket || rowBytesToDo >= c.payloadSize || rowsToDo <= 1 then 1
    else if c.payloadSize - rowBytesToDo <= c.rowSize || rowsToDo == 2 then 2 else 3
  }

  function SegmentBytes(c: TxConfig, rowOffset: int, used: int): int {
    var rowBytesToDo := c.rowSize - rowOffset;
    if rowBytesToDo >= c.payloadSize - used then c.payloadSize - used else rowBytesToDo
  }

  /** Past length bytes of the row. */
  function Advance(c: TxConfig, p: Place, length: nat): Place
    requires p.rowsToDo > 0
  {
    if p.rowOffset + length == c.rowSize then Place(p.rowsToDo - 1, 0)
    else Place(p.rowsToDo, p.rowOffset + length)
  }

  /** A segment of a packet: where it starts, and its bytes. */
  datatype Segment = Segment(at: Place, length: nat)

  /**
   * Segments that a packet can hold: each starts where the one before ends, none is empty,
   * none runs past its row, and all are whole pixel groups.
   */
  ghost predicate AreSegments(c: TxConfig, p: Place, segments: seq<Segment>, end: Place)
    requires c.pgroupBytes > 0
    decreases |segments|
  {
    if segments == [] then p == end
    else
      var s := segments[0];
      && s.at == p && p.rowsToDo > 0 && s.length > 0 && p.rowOffset + s.length <= c.rowSize
      && p.rowOffset % c.pgroupBytes == 0 && s.length % c.pgroupBytes == 0
      && AreSegments(c, Advance(c, p, s.length), segments[1..], end)
  }

  function Sum(segments: seq<Segment>): nat {
    if segments == [] then 0 else segments[0].length + Sum(segments[1..])
  }

  // ---------------------------------------------------------------- One packet

  /** Whether the next header of a packet has bytes to describe. */
  predicate HasRoom(c: TxConfig, p: Place, used: nat) {
    p.rowsToDo > 0 && p.rowOffset < c.rowSize && used < c.payloadSize
  }

  /** The segment that a header describes when used bytes of the packet are taken. */
  function NextSegment(c: TxConfig, p: Place, used: nat): (s: Segment)
    requires HasRoom(c, p, used)
    ensures s.length > 0 && p.rowOffset + s.length <= c.rowSize
    ensures used + s.length <= c.payloadSize
  {
    Segment(p, SegmentBytes(c, p.rowOffset, used))
  }

  function AfterNext(c: TxConfig, p: Place, used: nat): (q: Place)
    requires HasRoom(c, p, used)
    ensures IsPlace(c, q) || p.rowOffset >= c.rowSize
    ensures IsFurther(p, q)
  {
    Advance(c, p, NextSegment(c, p, used).length)
  }

  /** q is further on in the rows than p. */
  predicate IsFurther(p: Place, q: Place) {
    q.rowsToDo < p.rowsToDo || (q.rowsToDo == p.rowsToDo && q.rowOffset > p.rowOffset)
  }

  /** There are bytes to describe for each of so many headers. */
  predicate CanCut(c: TxConfig, p: Place, headers: nat, used: nat)
    decreases headers
  {
    headers == 0
    || (HasRoom(c, p, used)
        && CanCut(c, AfterNext(c, p, used), headers - 1, used + NextSegment(c, p, used).length))
  }

  /** The segments that so many headers describe, and the place behind them. */
  function Cut(c: TxConfig, p: Place, headers: nat, used: nat): (r: (seq<Segment>, Place))
    requires CanCut(c, p, headers, used)
    ensures |r.0| == headers
    decreases headers
  {
    if headers == 0 then ([], p)
    else
      var s := NextSegment(c, p, used);
      var (segments, end) := Cut(c, AfterNext(c, p, used), headers - 1, used + s.length);
      ([s] + segments, end)
  }

  /** A packet takes no more headers than there are bytes for, and never more than three. */
  lemma HeadersHaveRoom(c: TxConfig, p: Place)
    requires Valid(c) && IsPlace(c, p) && p.rowsToDo > 0
    ensures var n := NumRowHeaders(c, c.rowSize - p.rowOffset, p.rowsToDo);
      1 <= n <= 3 && CanCut(c, p, n, 0)
  {
    var n := NumRowHeaders(c, c.rowSize - p.rowOffset, p.rowsToDo);
    var used := NextSegment(c, p, 0).length;
    var q := AfterNext(c, p, 0);
    if n >= 2 {
      assert used == c.rowSize - p.rowOffset && q == Place(p.rowsToDo - 1, 0);
    }
    if n == 3 {
      var length := NextSegment(c, q, used).length;
      assert length == c.rowSize && AfterNext(c, q, used) == Place(p.rowsToDo - 2, 0);
      assert CanCut(c, AfterNext(c, q, used), 1, used + length);
      assert CanCut(c, q, 2, used);
    } else if n == 2 {
      assert CanCut(c, q, 1, used);
    }
  }

  lemma RowsLeft(rows: int, rowSize: int)
    ensures (rows - 1) * rowSize == rows * rowSize - rowSize
  {
  }

  /** What is cut is sound: whole groups, in order, within the payload, and nothing left out. */
  lemma {:induction false} CutIsSound(c: TxConfig, p: Place, headers: nat, used: nat)
    requires Valid(c) && IsPlace(c, p) && CanCut(c, p, headers, used)
    requires p.rowOffset % c.pgroupBytes == 0 && used % c.pgroupBytes == 0
    ensures var (segments, end) := Cut(c, p, headers, used);
      && AreSegments(c, p, segments, end) && IsPlace(c, end)
      && end.rowOffset % c.pgroupBytes == 0
      && (headers > 0 ==> used + Sum(segments) <= c.payloadSize && IsFurther(p, end))
      && Left(c, p) == Left(c, end) + Sum(segments)
    decreases headers
  {
    if headers > 0 {
      var s := NextSegment(c, p, used);
      MultiplesAdd(c.rowSize, p.rowOffset, c.pgroupBytes);
      MultiplesAdd(c.payloadSize, used, c.pgroupBytes);
      assert s.length % c.pgroupBytes == 0;
      MultiplesAdd(p.rowOffset, s.length, c.pgroupBytes);
      MultiplesAdd(used, s.length, c.pgroupBytes);
      RowsLeft(p.rowsToDo, c.rowSize);
      CutIsSound(c, AfterNext(c, p, used), headers - 1, used + s.length);
    }
  }

  /** The segments of the packet that starts at p, and where the next packet starts. */
  function CutPacket(c: TxConfig, p: Place): (r: (seq<Segment>, Place))
    requires Valid(c) && IsPlace(c, p) && p.rowsToDo > 0
    requires p.rowOffset % c.pgroupBytes == 0
    ensures IsPlace(c, r.1) && r.1.rowOffset % c.pgroupBytes == 0 && IsFurther(p, r.1)
    ensures 1 <= |r.0| <= 3
  {
    HeadersHaveRoom(c, p);
    var n := NumRowHeaders(c, c.rowSize - p.rowOffset, p.rowsToDo);
    CutIsSound(c, p, n, 0);
    Cut(c, p, n, 0)
  }

  /**
   * A packet holds one to three segments, none empty, each whole pixel groups of one row,
   * following each other; together they fit the payload.
   */
  lemma PacketIsSound(c: TxConfig, p: Place)
    requires Valid(c) && IsPlace(c, p) && p.rowsToDo > 0 && p.rowOffset % c.pgroupBytes == 0
    ensures var (segments, end) := CutPacket(c, p);
      && AreSegments(c, p, segments, end) && 1 <= |segments| <= 3
      && 0 < Sum(segments) <= c.payloadSize
      && Left(c, p) == Left(c, end) + Sum(segments)
  {
    HeadersHaveRoom(c, p);
    var n := NumRowHeaders(c, c.rowSize - p.rowOffset, p.rowsToDo);
    CutIsSound(c, p, n, 0);
  }

  // ---------------------------------------------------------------- All packets

  /** The packets from p on. */
  function CutAll(c: TxConfig, p: Place): seq<seq<Segment>>
    requires Valid(c) && IsPlace(c, p) && p.rowOffset % c.pgroupBytes == 0
    decreases p.rowsToDo, c.rowSize - p.rowOffset
  {
    if p.rowsToDo == 0 then []
    else
      var (segments, end) := CutPacket(c, p);
      [segments] + CutAll(c, end)
  }

  /** The packets a number of rows goes out in. */
  function PacketCount(c: TxConfig, rows: nat): nat
    requires Valid(c)
  {
    StartIsPlace(c, rows);
    |CutAll(c, Place(rows, 0))|
  }

  lemma StartIsPlace(c: TxConfig, rows: nat)
    requires Valid(c)
    ensures IsPlace(c, Place(rows, 0)) && 0 % c.pgroupBytes == 0
  {
  }

  /**
   * A packet is full, or holds what is left of its row where it is to be of one line; else it
   * holds three segments, of which the last two are whole rows, or all that is left.
   */
  lemma PacketIsFull(c: TxConfig, p: Place)
    requires Valid(c) && IsPlace(c, p) && p.rowsToDo > 0 && p.rowOffset % c.pgroupBytes == 0
    ensures var (segments, end) := CutPacket(c, p);
      var left := c.rowSize - p.rowOffset;
      && segments != [] && segments[0].length == (if left < c.payloadSize then left else c.payloadSize)
      && (c.oneLinePerPacket ==> |segments| == 1)
      && (Sum(segments) == c.payloadSize || c.oneLinePerPacket || end.rowsToDo == 0
          || (|segments| == 3 && segments[1].length == segments[2].length == c.rowSize))
  {
    HeadersHaveRoom(c, p);
    var n, left := NumRowHeaders(c, c.rowSize - p.rowOffset, p.rowsToDo), c.rowSize - p.rowOffset;
    var s, q := NextSegment(c, p, 0), AfterNext(c, p, 0);
    CutOnce(c, p, n, 0);
    if n > 1 {
      var t, r := NextSegment(c, q, left), AfterNext(c, q, left);
      CutOnce(c, q, n - 1, left);
      if n > 2 {
        CutOnce(c, r, 1, left + t.length);
      }
    }
  }

  lemma CutOnce(c: TxConfig, p: Place, headers: nat, used: nat)
    requires CanCut(c, p, headers, used) && headers > 0
    ensures CanCut(c, AfterNext(c, p, used), headers - 1, used + NextSegment(c, p, used).length)
    ensures var s, q := NextSegment(c, p, used), AfterNext(c, p, used);
      var (segments, end) := Cut(c, p, headers, used);
      var (others, otherEnd) := Cut(c, q, headers - 1, used + s.length);
      && segments == [s] + others && end == otherEnd && Sum(segments) == s.length + Sum(others)
      && (headers == 1 ==> others == [] && end == q)
  {
    hide NextSegment, AfterNext, HasRoom;
    var s := NextSegment(c, p, used);
    var others := Cut(c, AfterNext(c, p, used), headers - 1, used + s.length).0;
    assert ([s] + others)[1..] == others;
  }

  function SumAll(packets: seq<seq<Segment>>): nat {
    if packets == [] then 0 else Sum(packets[0]) + SumAll(packets[1..])
  }

  /** The packets hold every byte of the rows, and none twice. */
  lemma {:induction false} PacketsHoldAll(c: TxConfig, p: Place)
    requires Valid(c) && IsPlace(c, p) && p.rowOffset % c.pgroupBytes == 0
    ensures SumAll(CutAll(c, p)) == Left(c, p)
    decreases p.rowsToDo, c.rowSize - p.rowOffset
  {
    if p.rowsToDo > 0 {
      PacketIsSound(c, p);
      PacketsHoldAll(c, CutPacket(c, p).1);
    }
  }

  // What opening a packet and taking the next header do, for the loops that cut.
  lemma OpenPacket(c: TxConfig, p: Place)
    requires Valid(c) && IsPlace(c, p) && p.rowsToDo > 0 && p.rowOffset % c.pgroupBytes == 0
    ensures var n := NumRowHeaders(c, c.rowSize - p.rowOffset, p.rowsToDo);
      && 1 <= n <= 3 && CanCut(c, p, n, 0) && Cut(c, p, n, 0) == CutPacket(c, p)
      && CutAll(c, p) == [CutPacket(c, p).0] + CutAll(c, CutPacket(c, p).1)
  {
    HeadersHaveRoom(c, p);
  }

  lemma NextHeader(c: TxConfig, p: Place, headers: nat, used: nat)
    requires headers > 0 && CanCut(c, p, headers, used)
    ensures HasRoom(c, p, used)
    ensures var s, q := NextSegment(c, p, used), AfterNext(c, p, used);
      && CanCut(c, q, headers - 1, used + s.length)
      && Cut(c, p, headers, used).0 == [s] + Cut(c, q, headers - 1, used + s.length).0
      && Cut(c, p, headers, used).1 == Cut(c, q, headers - 1, used + s.length).1
  {
  }

  lemma NoHeader(c: TxConfig, p: Place, used: nat)
    ensures CanCut(c, p, 0, used) && Cut(c, p, 0, used) == ([], p)
  {
  }

  /** The source's separate count of packets is the number the cutting makes. */
  method PacketsForRows(c: TxConfig, numRows: nat) returns (packets: nat)
    requires Valid(c)
    ensures packets == PacketCount(c, numRows)
  {
    hide Cut, CanCut, CutPacket, CutAll, NumRowHeaders;
    var rowsToDo: nat, rowOffset: nat := numRows, 0;
    packets := 0;
    StartIsPlace(c, numRows);
    while rowsToDo != 0
      invariant IsPlace(c, Place(rowsToDo, rowOffset)) && rowOffset % c.pgroupBytes == 0
      invariant packets + |CutAll(c, Place(rowsToDo, rowOffset))| == PacketCount(c, numRows)
      decreases rowsToDo, c.rowSize - rowOffset
    {
      ghost var p := Place(rowsToDo, rowOffset);
      OpenPacket(c, p);
      var numHeaders := NumRowHeaders(c, c.rowSize - rowOffset, rowsToDo);
      var used := 0;
      for h := 0 to numHeaders
        invariant used >= 0 && CanCut(c, Place(rowsToDo, rowOffset), numHeaders - h, used)
        invariant Cut(c, Place(rowsToDo, rowOffset), numHeaders - h, used).1 == CutPacket(c, p).1
      {
        NextHeader(c, Place(rowsToDo, rowOffset), numHeaders - h, used);
        var length := SegmentBytes(c, rowOffset, used);
        rowOffset := rowOffset + length;
        used := used + length;
        if rowOffset == c.rowSize {
          rowsToDo := rowsToDo - 1;
          rowOffset := 0;
        }
      }
      NoHeader(c, Place(rowsToDo, rowOffset), used);
      packets := packets + 1;
    }
    NoPackets(c);
  }

  lemma NoPackets(c: TxConfig)
    requires Valid(c)
    ensures IsPlace(c, Place(0, 0)) && CutAll(c, Place(0, 0)) == []
  {
  }
}
