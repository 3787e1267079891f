// Source/AvFifo/DtSt2110Video.c, reception: what the parser does with a packet, on values.

/**
 * The parser's state and its steps as functions. VideoRx has the same steps as methods
 * that update fields and a buffer, each proved to do what the function here says.
 */
module VideoParser {
  import opened Arithmetic
  import opened Bytes
  import opened Headers
  import opened PixelSpec
  import MediaTime

  // ---------------------------------------------------------------- State

  /** The pixel format frames are converted to; AsSent is UYVY 8 and raw, which are copied. */
  datatype Format = Uyvy10 | Uyvy10To8 | Yuv422p8 | AsSent

  datatype Stats = Stats(framesOk: nat, droppedFrames: nat, framesIncomplete: nat,
                         framesSizeError: nat, gaps: nat, ipPacketErrors: nat)

  /** A frame handed to the sink; numValid is how many bytes of data are written. */
  datatype Frame = Frame(data: seq<Byte>, numValid: int, field: int, numRows: int, is420: bool,
                         rtpTime: int, tod: MediaTime.TimeOfDay)

  /** The frame being received: its buffer, and the times of its first packet. */
  datatype Partial = NoFrame | Partial(data: seq<Byte>, rtpTime: int, tod: MediaTime.TimeOfDay)

  /** The fields of the parser; delivered are the frames handed over, oldest first. */
  datatype RxState = RxState(calculatedSize: int, countedSize: int, countedRows: int,
                             rowSize: int, numRows: int, prevRows: int, isInterlaced: bool,
                             is420: bool, isWaiting: bool, lastSeq: int, partial: Partial,
                             inBytes: int, outBytes: int, stats: Stats, delivered: seq<Frame>)

  /** A packet's UDP payload and when it arrived. */
  datatype Datagram = Datagram(payload: seq<Byte>, todNs: nat)

  /**
   * What a packet meets: whether the pool has memory, what a buffer holds at first, and
   * whether the sink takes a frame.
   */
  datatype Env = Env(hasMemory: bool, stale: nat -> Byte, accepts: bool)

  function Forget(s: RxState): RxState {
    RxState(-1, -1, 0, -1, -1, -1, false, false, true, s.lastSeq, NoFrame, 0, 0, s.stats,
            s.delivered)
  }

  /** The state DtSt2110VideoRx_Init sets up. */
  const INITIAL := RxState(-1, -1, 0, -1, -1, -1, false, false, true, 0, NoFrame, 0, 0,
                           Stats(0, 0, 0, 0, 0, 0), [])

  /** What every packet keeps: nothing is written past the room of the frame being received. */
  predicate Inv(s: RxState) {
    && s.rowSize >= -1 && s.numRows >= -1 && s.countedSize >= -1 && s.countedRows >= 0
    && (s.calculatedSize == -1 || 0 < s.calculatedSize <= INT_MAX)
    && 0 <= s.outBytes <= s.inBytes
    && (s.partial.NoFrame? ==> s.inBytes == 0)
    && (s.partial.Partial? ==>
          && s.calculatedSize != -1
          && |s.partial.data| == s.calculatedSize
          && s.inBytes <= s.calculatedSize)
  }

  // ---------------------------------------------------------------- Row headers

  /** The row headers of a packet, whether they fit, and what they say of fields. */
  datatype Rows = Rows(srds: seq<Srd>, isInterlaced: bool)
                | BadRows(isInterlaced: bool)
                | UnexpectedField

  function ReadRows(payload: seq<Byte>, at: nat, srds: seq<Srd>, isInterlaced: bool,
                    isSizeKnown: bool): (r: Rows)
    requires |srds| <= 2 && AllFit(srds)
    ensures r.Rows? ==> |r.srds| <= 3 && AllFit(r.srds)
    decreases 3 - |srds|
  {
    if at + SRD_SIZE > |payload| then BadRows(isInterlaced)
    else
      var row := ReadSrd(payload[at..]);
      if row.length == 0 then Rows(srds, isInterlaced)
      else if row.field && !isInterlaced && isSizeKnown then UnexpectedField
      else if !row.continuation then Rows(srds + [row], isInterlaced || row.field)
      else if |srds| == 2 then BadRows(isInterlaced || row.field)
      else ReadRows(payload, at + SRD_SIZE, srds + [row], isInterlaced || row.field, isSizeKnown)
  }

  predicate AllFit(srds: seq<Srd>) {
    forall i | 0 <= i < |srds| :: SrdFits(srds[i])
  }

  /** The bytes of the rows. */
  function DataBytes(srds: seq<Srd>): (n: int) {
    if srds == [] then 0 else srds[0].length + DataBytes(srds[1..])
  }

  predicate AnyField(srds: seq<Srd>) {
    exists r :: r in srds && r.field
  }

  function BadPacket(s: RxState, isInterlaced: bool): RxState {
    s.(stats := s.stats.(ipPacketErrors := s.stats.ipPacketErrors + 1), isWaiting := true,
       isInterlaced := isInterlaced)
  }

  function SizeError(s: RxState): RxState {
    Forget(s.(stats := s.stats.(framesSizeError := s.stats.framesSizeError + 1)))
  }

  // ---------------------------------------------------------------- Learning

  /** The bytes of the row that the last of these rows leaves off in. */
  function RowBytes(rowSize: int, srds: seq<Srd>): int
    decreases |srds|
  {
    if srds == [] then rowSize
    else RowBytes((if srds[0].offset == 0 then 0 else rowSize) + srds[0].length, srds[1..])
  }

  /** The bytes and rows counted, while the packets of a frame follow each other. */
  function CountBytes(s: RxState, srds: seq<Srd>, seqNum: int): RxState {
    var s1 := if srds != [] && s.countedSize == -1 && srds[0].row == 0 && srds[0].offset == 0
              then s.(countedSize := 0, countedRows := 0, lastSeq := (seqNum - 1) % W32)
              else s;
    if s1.countedSize == -1 then s1
    else if seqNum != (s1.lastSeq + 1) % W32 then s1.(countedSize := -1)
    else if srds == [] then s1
    else s1.(countedSize := s1.countedSize + DataBytes(srds),
             countedRows := srds[|srds| - 1].row + 1)
  }

  /** What any packet's row headers tell: how many rows there are, their step and their bytes. */
  function CountRows(s: RxState, srds: seq<Srd>): RxState
    requires srds != []
  {
    var n := srds[|srds| - 1].row + 1;
    s.(numRows := n, prevRows := n,
       is420 := if s.prevRows != -1 && s.prevRows != n then n - s.prevRows == 2 else s.is420,
       rowSize := if srds[0].offset == 0 then RowBytes(0, srds)
                  else if s.rowSize != -1 then RowBytes(s.rowSize, srds) else -1)
  }

  function CountFrameSize(s: RxState, srds: seq<Srd>, seqNum: int): RxState {
    if srds == [] then CountBytes(s, srds, seqNum)
    else CountRows(CountBytes(s, srds, seqNum), srds)
  }

  function CalculateFrameSize(s: RxState): RxState {
    var size := if s.numRows >= 0 && s.rowSize >= 0
                then (s.numRows + if s.isInterlaced then 1 else 0) * s.rowSize else -1;
    var counted := if s.countedSize != -1 && s.isInterlaced && s.countedRows > 0
                   then s.countedSize + s.countedSize / s.countedRows else s.countedSize;
    var larger := if size < counted then counted else size;
    s.(countedSize := counted, calculatedSize := if 0 < larger <= INT_MAX then larger else -1)
  }

  /** Until a marker: only watch. */
  function Learn(s: RxState, isEnd: bool, srds: seq<Srd>, seqNum: int): RxState {
    var s1 := if s.calculatedSize == -1 then CountFrameSize(s, srds, seqNum) else s;
    var s2 := s1.(lastSeq := seqNum);
    if !isEnd
       || (s2.calculatedSize == -1 && (s2.numRows == -1 || s2.rowSize == -1)
           && s2.countedSize == -1)
    then s2
    else s2.(isWaiting := false, inBytes := 0, outBytes := 0)
  }

  lemma {:induction false} RowBytesNonNegative(rowSize: int, srds: seq<Srd>)
    requires rowSize >= 0 && AllFit(srds)
    ensures RowBytes(rowSize, srds) >= 0
    decreases |srds|
  {
    if srds != [] {
      RowBytesNonNegative((if srds[0].offset == 0 then 0 else rowSize) + srds[0].length, srds[1..]);
    }
  }

  lemma CountKeepsInv(s: RxState, srds: seq<Srd>, seqNum: int)
    requires Inv(s) && s.calculatedSize == -1 && AllFit(srds)
    ensures Inv(CountFrameSize(s, srds, seqNum))
  {
    DataBytesNonNegative(srds);
    RowBytesNonNegative(0, srds);
    if s.rowSize >= 0 {
      RowBytesNonNegative(s.rowSize, srds);
    }
    hide RowBytes, DataBytes;
    if srds != [] {
      assert SrdFits(srds[|srds| - 1]);
    }
  }

  lemma LearnKeepsInv(s: RxState, isEnd: bool, srds: seq<Srd>, seqNum: int)
    requires Inv(s) && AllFit(srds)
    ensures Inv(Learn(s, isEnd, srds, seqNum))
  {
    hide CountFrameSize;
    if s.calculatedSize == -1 {
      CountKeepsInv(s, srds, seqNum);
    }
  }

  // ---------------------------------------------------------------- Filling a frame

  /** data with bytes written at position at. */
  function Put(data: seq<Byte>, at: nat, bytes: seq<Byte>): (r: seq<Byte>)
    requires at + |bytes| <= |data|
    ensures |r| == |data| && Stored(data, r, at, bytes)
  {
    data[..at] + bytes + data[at + |bytes|..]
  }

  /** data with the planes of n groups of src written from group at on, planes plane apart. */
  function PutPlanes(data: seq<Byte>, plane: nat, at: nat, src: seq<Byte>): (r: seq<Byte>)
    requires at + |src| / 4 <= plane && 4 * plane <= |data|
    ensures |r| == |data|
  {
    var n := |src| / 4;
    seq(|data|, j requires 0 <= j < |data| =>
      if 2 * at <= j < 2 * (at + n) then src[2 * (j - 2 * at) + 1]
      else if 2 * plane + at <= j < 2 * plane + at + n then src[4 * (j - 2 * plane - at)]
      else if 3 * plane + at <= j < 3 * plane + at + n then src[4 * (j - 3 * plane - at) + 2]
      else data[j])
  }

  /** The bytes a segment leaves in the frame. */
  function OutBytes(format: Format, length: nat): (n: nat)
    ensures n <= length
  {
    match format
    case Uyvy10 => length / 5 * 5
    case Uyvy10To8 => length / 5 * 4
    case Yuv422p8 => length / 4 * 4
    case AsSent => length
  }

  /** data with a segment converted to position at. */
  function Write(format: Format, data: seq<Byte>, at: nat, src: seq<Byte>): (r: seq<Byte>)
    requires at + |src| <= |data|
    ensures |r| == |data|
  {
    match format
    case Uyvy10 => Put(data, at, Convert(ToUyvy10, src))
    case Uyvy10To8 => Put(data, at, Convert(ToUyvy8, src))
    case Yuv422p8 => PutPlanes(data, |data| / 4, at / 4, src)
    case AsSent => Put(data, at, src)
  }

  function AppendSegment(format: Format, s: RxState, src: seq<Byte>): (t: RxState)
    requires Inv(s) && s.partial.Partial? && s.inBytes + |src| <= s.calculatedSize
    ensures Inv(t) && t.partial.Partial?
  {
    s.(partial := s.partial.(data := Write(format, s.partial.data, s.outBytes, src)),
       inBytes := s.inBytes + |src|, outBytes := s.outBytes + OutBytes(format, |src|))
  }

  /** The segments of a packet, until one does not fit. */
  function AppendSegments(format: Format, s: RxState, srds: seq<Srd>, src: seq<Byte>): (t: RxState)
    requires Inv(s) && s.partial.Partial?
    requires AllFit(srds) && DataBytes(srds) <= |src|
    ensures Inv(t)
    decreases |srds|
  {
    if srds == [] then s
    else
      var n := srds[0].length;
      DataBytesNonNegative(srds[1..]);
      if s.inBytes + n > s.calculatedSize then SizeError(s)
      else AppendSegments(format, AppendSegment(format, s, src[..n]), srds[1..], src[n..])
  }

  lemma {:induction false} DataBytesNonNegative(srds: seq<Srd>)
    requires AllFit(srds)
    ensures DataBytes(srds) >= 0
  {
    if srds != [] {
      DataBytesNonNegative(srds[1..]);
    }
  }

  /** The bytes of a row as a field's rows are counted. */
  function LineSize(format: Format, rowSize: int): int {
    if rowSize < 0 then 0 else if format == Uyvy10To8 then rowSize / 5 * 4 else rowSize
  }

  function Deliver(format: Format, s: RxState, isSecondField: bool, accepts: bool): RxState
    requires s.partial.Partial?
  {
    var line := LineSize(format, s.rowSize);
    var frame := Frame(s.partial.data, s.outBytes, if isSecondField then 1 else 0,
                       if s.isInterlaced && line > 0 then s.outBytes / line else s.numRows,
                       s.is420, s.partial.rtpTime, s.partial.tod);
    s.(partial := NoFrame, inBytes := 0, outBytes := 0,
       delivered := if accepts then s.delivered + [frame] else s.delivered,
       stats := s.stats.(framesOk := s.stats.framesOk + 1,
                         droppedFrames := s.stats.droppedFrames + if accepts then 0 else 1))
  }

  /** Whether to go on with the packet: in sequence, or at the start of a frame with none begun. */
  function CheckSequence(s: RxState, isEnd: bool, srds: seq<Srd>, seqNum: int): (r: (RxState, bool))
  {
    var s1 := s.(lastSeq := seqNum);
    if seqNum == (s.lastSeq + 1) % W32 then (s1, true)
    else if s.inBytes != 0 || srds == [] || srds[0].row != 0 || srds[0].offset != 0 then
      (s1.(stats := s.stats.(framesIncomplete := s.stats.framesIncomplete + 1),
           isWaiting := !isEnd, inBytes := 0, outBytes := 0), false)
    else (s1.(stats := s.stats.(gaps := s.stats.gaps + 1)), true)
  }

  /** The size learned, worked out when a frame is needed. */
  function EnsureSize(s: RxState, srds: seq<Srd>): (t: RxState)
    requires Inv(s) && s.partial.NoFrame?
    ensures Inv(t) && t.partial.NoFrame?
  {
    if s.calculatedSize != -1 then s
    else CalculateFrameSize(s.(isInterlaced := s.isInterlaced
                                 || (srds != [] && srds[|srds| - 1].field)))
  }

  /** A frame of the size learned from the pool. */
  function GetFrame(s: RxState, isEnd: bool, env: Env): (r: (RxState, bool))
    requires Inv(s) && s.calculatedSize != -1 && s.partial.NoFrame?
    ensures Inv(r.0) && (r.1 ==> r.0.partial.Partial?)
  {
    if env.hasMemory then
      (s.(partial := Partial(seq(s.calculatedSize, env.stale), 0, MediaTime.TimeOfDay(0, 0)),
          inBytes := 0, outBytes := 0), true)
    else
      (s.(stats := s.stats.(droppedFrames := s.stats.droppedFrames + 1), isWaiting := !isEnd),
       false)
  }

  /** A frame to fill: the one there is, or one from the pool, of the size learned. */
  function BeginFrame(s: RxState, isEnd: bool, srds: seq<Srd>, env: Env): (r: (RxState, bool))
    requires Inv(s)
    ensures Inv(r.0) && (r.1 ==> r.0.partial.Partial?)
  {
    if s.partial.Partial? then (s, true)
    else if EnsureSize(s, srds).calculatedSize == -1 then (Forget(EnsureSize(s, srds)), false)
    else GetFrame(EnsureSize(s, srds), isEnd, env)
  }

  /** The times of a frame are those of its first packet. */
  function StampFrame(s: RxState, timestamp: int, todNs: nat): RxState
    requires s.partial.Partial?
  {
    if s.inBytes == 0
    then s.(partial := s.partial.(rtpTime := timestamp, tod := MediaTime.FromNs(todNs)))
    else s
  }

  /** The segments of a packet into the frame being received, and its delivery at the end. */
  function FillFrame(format: Format, s: RxState, rtp: Rtp, srds: seq<Srd>, src: seq<Byte>,
                     todNs: nat, env: Env): (t: RxState)
    requires Inv(s) && s.partial.Partial?
    requires AllFit(srds) && DataBytes(srds) <= |src|
    ensures Inv(t)
  {
    var s1 := AppendSegments(format, StampFrame(s, rtp.timestamp, todNs), srds, src);
    if rtp.marker && s1.partial.Partial? then Deliver(format, s1, AnyField(srds), env.accepts)
    else s1
  }

  /** What is done with the rows of a packet, once read. */
  function HandleRows(format: Format, s: RxState, rtp: Rtp, seqNum: int, srds: seq<Srd>,
                      src: seq<Byte>, todNs: nat, env: Env): (t: RxState)
    requires Inv(s)
    requires AllFit(srds) && DataBytes(srds) <= |src|
    ensures Inv(t)
  {
    if s.isWaiting then
      LearnKeepsInv(s, rtp.marker, srds, seqNum);
      Learn(s, rtp.marker, srds, seqNum)
    else
      var (s1, isGoingOn) := CheckSequence(s, rtp.marker, srds, seqNum);
      if !isGoingOn then s1
      else
        var (s2, hasFrame) := BeginFrame(s1, rtp.marker, srds, env);
        if !hasFrame then s2
        else FillFrame(format, s2, rtp, srds, src, todNs, env)
  }

  // ---------------------------------------------------------------- A packet

  /** What the pipe hands over: a datagram, or a packet that holds none. */
  datatype Arrival = Damaged | Arrived(datagram: Datagram)

  function CountError(s: RxState): RxState {
    s.(stats := s.stats.(ipPacketErrors := s.stats.ipPacketErrors + 1))
  }

  /** The extended sequence number: its upper half is in the payload header. */
  function SeqNum(body: seq<Byte>, rtp: Rtp): int
    requires |body| >= ESN_SIZE
  {
    Get16(body) * 0x10000 + rtp.sequenceNumber
  }

  /** What follows the RTP header: row headers, and the data they describe. */
  function HandleBody(format: Format, s: RxState, rtp: Rtp, body: seq<Byte>, todNs: nat,
                      env: Env): (t: RxState)
    requires Inv(s) && |body| >= ESN_SIZE
    ensures Inv(t)
  {
    match ReadRows(body, ESN_SIZE, [], s.isInterlaced, s.calculatedSize != -1)
    case BadRows(isInterlaced) => BadPacket(s, isInterlaced)
    case UnexpectedField => SizeError(s)
    case Rows(srds, isInterlaced) =>
      DataBytesNonNegative(srds);
      var at := ESN_SIZE + SRD_SIZE * |srds|;
      if at + DataBytes(srds) > |body| then BadPacket(s, isInterlaced)
      else HandleRows(format, s.(isInterlaced := isInterlaced), rtp, SeqNum(body, rtp), srds,
                      body[at..], todNs, env)
  }

  /** DtSt2110VideoRx_Parse: for any packet at all, nothing is written out of bounds. */
  function Step(format: Format, s: RxState, arrival: Arrival, env: Env): (t: RxState)
    requires Inv(s)
    ensures Inv(t)
  {
    if arrival.Damaged? || |arrival.datagram.payload| < RTP_HEADER_SIZE + ESN_SIZE
    then CountError(s)
    else HandleBody(format, s, ReadRtp(arrival.datagram.payload),
                    arrival.datagram.payload[RTP_HEADER_SIZE..], arrival.datagram.todNs, env)
  }

  /** A run of packets, each with what it meets. */
  function Run(format: Format, s: RxState, arrivals: seq<Arrival>, envs: seq<Env>): (t: RxState)
    requires Inv(s) && |arrivals| == |envs|
    ensures Inv(t)
    decreases |arrivals|
  {
    if arrivals == [] then s
    else Run(format, Step(format, s, arrivals[0], envs[0]), arrivals[1..], envs[1..])
  }

  // ---------------------------------------------------------------- What was delivered

  lemma {:induction false} SegmentsDeliverNothing(format: Format, s: RxState, srds: seq<Srd>,
                                                  src: seq<Byte>)
    requires Inv(s) && s.partial.Partial? && AllFit(srds) && DataBytes(srds) <= |src|
    ensures AppendSegments(format, s, srds, src).delivered == s.delivered
    decreases |srds|
  {
    hide Inv, Write;
    if srds != [] {
      var n := srds[0].length;
      DataBytesNonNegative(srds[1..]);
      if s.inBytes + n <= s.calculatedSize {
        SegmentsDeliverNothing(format, AppendSegment(format, s, src[..n]), srds[1..], src[n..]);
      }
    }
  }

  lemma FillDeliversOne(format: Format, s: RxState, rtp: Rtp, srds: seq<Srd>, src: seq<Byte>,
                        todNs: nat, env: Env)
    requires Inv(s) && s.partial.Partial? && AllFit(srds) && DataBytes(srds) <= |src|
    ensures s.delivered <= FillFrame(format, s, rtp, srds, src, todNs, env).delivered
  {
    SegmentsDeliverNothing(format, StampFrame(s, rtp.timestamp, todNs), srds, src);
    hide AppendSegments, AllFit, DataBytes, AnyField, LineSize;
  }

  lemma LearningDeliversNothing(s: RxState, isEnd: bool, srds: seq<Srd>, seqNum: int)
    ensures Learn(s, isEnd, srds, seqNum).delivered == s.delivered
  {
    hide RowBytes, DataBytes;
  }

  lemma CheckDeliversNothing(s: RxState, isEnd: bool, srds: seq<Srd>, seqNum: int)
    requires Inv(s)
    ensures var t := CheckSequence(s, isEnd, srds, seqNum).0; Inv(t) && t.delivered == s.delivered
  {
  }

  lemma BeginDeliversNothing(s: RxState, isEnd: bool, srds: seq<Srd>, env: Env)
    requires Inv(s)
    ensures BeginFrame(s, isEnd, srds, env).0.delivered == s.delivered
  {
    hide Inv;
  }

  lemma RowsDeliverOne(format: Format, s: RxState, rtp: Rtp, seqNum: int, srds: seq<Srd>,
                       src: seq<Byte>, todNs: nat, env: Env)
    requires Inv(s) && AllFit(srds) && DataBytes(srds) <= |src|
    ensures s.delivered <= HandleRows(format, s, rtp, seqNum, srds, src, todNs, env).delivered
  {
    hide Inv, FillFrame, AllFit, DataBytes, Learn, CheckSequence, BeginFrame;
    LearningDeliversNothing(s, rtp.marker, srds, seqNum);
    CheckDeliversNothing(s, rtp.marker, srds, seqNum);
    var (s1, isGoingOn) := CheckSequence(s, rtp.marker, srds, seqNum);
    BeginDeliversNothing(s1, rtp.marker, srds, env);
    var (s2, hasFrame) := BeginFrame(s1, rtp.marker, srds, env);
    if hasFrame {
      FillDeliversOne(format, s2, rtp, srds, src, todNs, env);
    }
  }

  lemma ErrorsDeliverNothing(s: RxState, isInterlaced: bool)
    ensures BadPacket(s, isInterlaced).delivered == s.delivered == SizeError(s).delivered
  {
  }
}
