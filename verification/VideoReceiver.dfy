// Source/AvFifo/DtSt2110Video.c, reception: the parser as the source has it, in place.

module VideoReceiver {
  import opened Arithmetic
  import opened Bytes
  import opened Headers
  import opened NetPackets
  import opened FramePool
  import opened PixelSpec
  import opened RxFrames
  import opened VideoParser
  import PixConv

  /** A packet handed over by a pipe, as the parser sees it. */
  function ArrivalOf(packet: seq<Byte>): Arrival {
    match NetPackets.Parse(packet)
    case NoPacket => Damaged
    case RxPacket(todNs, _, payload) => Arrived(Datagram(payload, todNs))
  }

  function ArrivalsOf(packets: seq<seq<Byte>>): (r: seq<Arrival>)
    ensures |r| == |packets|
  {
    if packets == [] then [] else [ArrivalOf(packets[0])] + ArrivalsOf(packets[1..])
  }

  // ---------------------------------------------------------------- Segments in place

  // A store in an array is what Put makes of its contents.
  lemma StoredIsPut(pre: seq<Byte>, post: seq<Byte>, at: nat, bytes: seq<Byte>)
    requires Stored(pre, post, at, bytes)
    ensures post == Put(pre, at, bytes)
  {
    assert post == post[..at] + post[at..at + |bytes|] + post[at + |bytes|..];
  }

  // Planes written in an array are what PutPlanes makes of its contents.
  lemma PlanesArePut(pre: seq<Byte>, post: seq<Byte>, plane: nat, at: nat, src: seq<Byte>)
    requires |src| % 4 == 0 && at + |src| / 4 <= plane && 4 * plane <= |pre|
    requires var n := |src| / 4;
      && PixConv.InPlanes(src, post, 2 * at, 2 * plane + at, 3 * plane + at, 0, n)
      && PixConv.OutsidePlanes(pre, post, 2 * at, 2 * plane + at, 3 * plane + at, n)
    ensures post == PutPlanes(pre, plane, at, src)
  {
    hide PixConv.InPlanes, PixConv.OutsidePlanes, PutPlanes;
    SameSize(pre, post, 2 * at, 2 * plane + at, 3 * plane + at, |src| / 4);
    forall j | 0 <= j < |post|
      ensures post[j] == PutPlanes(pre, plane, at, src)[j]
    {
      PlanesMatch(pre, post, plane, at, src, j);
    }
  }

  lemma PlanesMatch(pre: seq<Byte>, post: seq<Byte>, plane: nat, at: nat, src: seq<Byte>, j: nat)
    requires |src| % 4 == 0 && at + |src| / 4 <= plane && 4 * plane <= |pre| == |post| && j < |post|
    requires var n := |src| / 4;
      && PixConv.InPlanes(src, post, 2 * at, 2 * plane + at, 3 * plane + at, 0, n)
      && PixConv.OutsidePlanes(pre, post, 2 * at, 2 * plane + at, 3 * plane + at, n)
    ensures post[j] == PutPlanes(pre, plane, at, src)[j]
  {
    hide PixConv.InPlanes, PixConv.OutsidePlanes;
    PlanesAt(pre, post, 2 * at, 2 * plane + at, 3 * plane + at, |src| / 4, src, j);
  }

  lemma SameSize(pre: seq<Byte>, post: seq<Byte>, y: nat, u: nat, v: nat, n: nat)
    requires PixConv.OutsidePlanes(pre, post, y, u, v, n)
    ensures |pre| == |post|
  {
  }

  // What is where in the planes.
  lemma PlanesAt(pre: seq<Byte>, post: seq<Byte>, y: nat, u: nat, v: nat, n: nat, src: seq<Byte>,
                 j: nat)
    requires |src| == 4 * n && j < |post|
    requires PixConv.InPlanes(src, post, y, u, v, 0, n) && PixConv.OutsidePlanes(pre, post, y, u, v, n)
    ensures |pre| == |post|
    ensures post[j] == if y <= j < y + 2 * n then src[2 * (j - y) + 1]
                       else if u <= j < u + n then src[4 * (j - u)]
                       else if v <= j < v + n then src[4 * (j - v) + 2]
                       else pre[j]
  {
    assert src[4 * 0..4 * n] == src;
    if y <= j < y + 2 * n {
      assert post[y..y + 2 * n][j - y] == post[j];
    } else if u <= j < u + n {
      assert post[u..u + n][j - u] == post[j];
    } else if v <= j < v + n {
      assert post[v..v + n][j - v] == post[j];
    }
  }

  // What a conversion leaves out makes no difference.
  lemma {:induction false} ConvertWhole(c: Conv, src: seq<Byte>)
    ensures Convert(c, src[..|src| / 5 * 5]) == Convert(c, src)
    decreases |src|
  {
    hide Group;
    if |src| >= 5 {
      var whole := src[..|src| / 5 * 5];
      assert whole[..5] == src[..5] && whole[5..] == src[5..][..|src[5..]| / 5 * 5];
      ConvertWhole(c, src[5..]);
    }
  }

  lemma PlanesWhole(data: seq<Byte>, plane: nat, at: nat, src: seq<Byte>)
    requires at + |src| / 4 <= plane && 4 * plane <= |data|
    ensures PutPlanes(data, plane, at, src[..|src| / 4 * 4]) == PutPlanes(data, plane, at, src)
  {
  }

  // A store within the first size bytes of a buffer.
  lemma StoredWithin(pre: seq<Byte>, post: seq<Byte>, at: nat, bytes: seq<Byte>, size: nat)
    requires Stored(pre, post, at, bytes) && at + |bytes| <= size <= |pre|
    ensures |post| == |pre| && Stored(pre[..size], post[..size], at, bytes)
    ensures post[size..] == pre[size..]
  {
    StoredSuffix(pre, post, at, bytes, size);
    assert post[..size][..at] == post[..at] && pre[..size][..at] == pre[..at];
    assert post[..size][at..at + |bytes|] == post[at..at + |bytes|];
    assert post[..size][at + |bytes|..] == post[at + |bytes|..][..size - at - |bytes|];
    assert pre[..size][at + |bytes|..] == pre[at + |bytes|..][..size - at - |bytes|];
  }

  lemma PlanesWithin(pre: seq<Byte>, post: seq<Byte>, y: nat, u: nat, v: nat, n: nat, src: seq<Byte>,
                     size: nat)
    requires PixConv.PlanesApart(size, y, u, v, n) && size <= |pre|
    requires PixConv.InPlanes(src, post, y, u, v, 0, n) && PixConv.OutsidePlanes(pre, post, y, u, v, n)
    ensures |post| == |pre| && post[size..] == pre[size..]
    ensures PixConv.InPlanes(src, post[..size], y, u, v, 0, n)
    ensures PixConv.OutsidePlanes(pre[..size], post[..size], y, u, v, n)
  {
    hide IsPlanar;
    assert post[..size][y..y + 2 * n] == post[y..y + 2 * n];
    assert post[..size][u..u + n] == post[u..u + n] && post[..size][v..v + n] == post[v..v + n];
  }

  /** A row segment converted into the first size bytes of a buffer. */
  method WriteSegment(format: Format, dst: array<Byte>, size: nat, at: nat, src: seq<Byte>)
    requires at + |src| <= size <= dst.Length
    modifies dst
    ensures dst[..size] == Write(format, old(dst[..size]), at, src)
    ensures dst[size..] == old(dst[size..])
  {
    hide Convert, Stored, PutPlanes, PixConv.InPlanes, PixConv.OutsidePlanes, Put;
    ghost var pre := dst[..];
    match format
    case Uyvy10 =>
      ConvertWhole(ToUyvy10, src);
      PixConv.Pg10ToUyvy10(src[..|src| / 5 * 5], dst, at);
      StoredWithin(pre, dst[..], at, Convert(ToUyvy10, src), size);
      StoredIsPut(pre[..size], dst[..size], at, Convert(ToUyvy10, src));
    case Uyvy10To8 =>
      ConvertWhole(ToUyvy8, src);
      PixConv.Pg10ToUyvy8(src[..|src| / 5 * 5], dst, at);
      StoredWithin(pre, dst[..], at, Convert(ToUyvy8, src), size);
      StoredIsPut(pre[..size], dst[..size], at, Convert(ToUyvy8, src));
    case Yuv422p8 =>
      WritePlanes(dst, size, at, src);
    case AsSent =>
      Store(dst, at, src);
      StoredWithin(pre, dst[..], at, src, size);
      StoredIsPut(pre[..size], dst[..size], at, src);
  }

  // The groups of a segment into planes a quarter of the size apart.
  method WritePlanes(dst: array<Byte>, size: nat, at: nat, src: seq<Byte>)
    requires at + |src| <= size <= dst.Length
    modifies dst
    ensures dst[..size] == Write(Yuv422p8, old(dst[..size]), at, src)
    ensures dst[size..] == old(dst[size..])
  {
    hide PutPlanes, PixConv.InPlanes, PixConv.OutsidePlanes;
    ghost var pre := dst[..];
    var plane, group := size / 4, at / 4;
    var whole := src[..|src| / 4 * 4];
    var y, u, v := 2 * group, 2 * plane + group, 3 * plane + group;
    PixConv.Uyvy8ToYuv422p(whole, dst, y, u, v);
    PlanesWithin(pre, dst[..], y, u, v, |whole| / 4, whole, size);
    PlanesArePut(pre[..size], dst[..size], plane, group, whole);
    PlanesWhole(pre[..size], plane, group, src);
  }

  // ---------------------------------------------------------------- The parser

  /** At most one more frame waits, and the application has those it had. */
  ghost predicate HasOneMore(was: Usage, now: Usage) {
    && now.inHands == was.inHands && now.maxSize == was.maxSize && now.numRead == was.numRead
    && was.waiting <= now.waiting && |now.waiting| <= |was.waiting| + 1
  }

  /**
   * The parser. State is the parser's state as a value; every method does what the function of
   * VideoParser that its contract names does to that value. The frames are the sink's: one of
   * them is filled, and what the sink takes waits for the application.
   */
  class VideoRx {
    const format: Format
    const sink: Frames
    var calculatedSize: int
    var countedSize: int
    var countedRows: int
    var rowSize: int
    var numRows: int
    var prevRows: int
    var isInterlaced: bool
    var is420: bool
    var isWaiting: bool
    var lastSeq: int
    var partial: PoolFrame?
    var inBytes: int
    var outBytes: int
    var stats: Stats

    ghost function State(): RxState
      reads this, sink`delivered, partial, if partial == null then {} else {partial.data, partial.info}
    {
      RxState(calculatedSize, countedSize, countedRows, rowSize, numRows, prevRows,
              isInterlaced, is420, isWaiting, lastSeq,
              if partial == null then NoFrame
              else Partial.Partial(partial.Bytes(), partial.info.rtpTime, partial.info.tod),
              inBytes, outBytes, stats, sink.delivered)
    }

    /** The frame being filled is the one that the sink has lent. */
    ghost predicate HasSink()
      reads this`partial, sink, sink.pool, sink.fifo, sink.parts
    {
      && sink.Valid() && sink.partial == partial
      && this !in sink.repr && this !in sink.parts && this !in sink.contents
    }

    ghost predicate Valid()
      reads this, sink, sink.pool, sink.fifo, sink.parts, partial
      reads if partial == null then {} else {partial.data, partial.info}
    {
      HasSink() && Inv(State())
    }

    /** What the methods may change. */
    ghost function Repr(): set<object>
      reads sink
    {
      {this} + sink.repr
    }

    constructor (format: Format, sink: Frames)
      requires sink.Valid() && sink.partial == null && sink.delivered == []
      ensures fresh(this)
      ensures this.format == format && this.sink == sink && State() == INITIAL && Valid()
    {
      this.format, this.sink := format, sink;
      calculatedSize, countedSize, countedRows, rowSize, numRows := -1, -1, 0, -1, -1;
      prevRows, isInterlaced, is420, isWaiting, lastSeq := -1, false, false, true, 0;
      partial, inBytes, outBytes := null, 0, 0;
      stats := Stats(0, 0, 0, 0, 0, 0);
    }

    // What changes nothing of the parser's leaves it as it is.
    twostate lemma IsSame()
      requires old(Valid())
      requires unchanged(this) && unchanged(sink) && unchanged(sink.pool) && unchanged(sink.fifo)
      requires unchanged(sink.fifo.ring) && unchanged(sink.parts) && unchanged(sink.contents)
      requires partial != null ==>
                 unchanged(partial) && unchanged(partial.data) && unchanged(partial.info)
      ensures old(sink.AreIntact(0)) ==> sink.AreIntact(0)
      ensures Valid() && State() == old(State()) && sink.Use() == old(sink.Use())
    {
      sink.IsInParts();
      hide Frames.Valid, Frames.Use, Inv, Frames.Shown;
    }

    /** Back to learning: the partial frame is the pool's again. */
    method ForgetStreamAndFrame()
      requires HasSink()
      modifies Repr()
      ensures State() == Forget(old(State())) && partial == null
      ensures HasSink() && fresh(Repr() - old(Repr()))
      ensures fresh(sink.parts - old(sink.parts)) && fresh(sink.contents - old(sink.contents))
      ensures sink.Use() == old(sink.Use())
    {
      hide Frames.Valid, Frames.Use, HasRoom;
      if partial != null {
        sink.Forget(partial);
        partial := null;
      }
      ForgetStream();
      isWaiting := true;
      inBytes, outBytes := 0, 0;
    }

    // The sizes alone.
    method ForgetStream()
      modifies this`calculatedSize, this`numRows, this`countedSize, this`countedRows
      modifies this`rowSize, this`isInterlaced, this`is420, this`prevRows
      ensures calculatedSize == numRows == countedSize == rowSize == prevRows == -1
      ensures countedRows == 0 && !isInterlaced && !is420
    {
      calculatedSize, numRows, countedSize, countedRows := -1, -1, -1, 0;
      rowSize, isInterlaced, is420, prevRows := -1, false, false, -1;
    }

    method CountPacketError()
      requires HasSink()
      modifies this`stats, this`isWaiting
      ensures State() == BadPacket(old(State()), isInterlaced)
      ensures HasSink() && sink.Use() == old(sink.Use())
    {
      hide Frames.Valid, Frames.Use;
      stats := stats.(ipPacketErrors := stats.ipPacketErrors + 1);
      isWaiting := true;
    }

    method CountSizeError()
      requires HasSink()
      modifies Repr()
      ensures State() == SizeError(old(State())) && partial == null
      ensures HasSink() && fresh(Repr() - old(Repr()))
      ensures fresh(sink.parts - old(sink.parts)) && fresh(sink.contents - old(sink.contents))
      ensures sink.Use() == old(sink.Use())
    {
      hide Frames.Valid, Frames.Use;
      stats := stats.(framesSizeError := stats.framesSizeError + 1);
      ForgetStreamAndFrame();
    }

    // The row headers themselves; isInterlaced is set by a field bit on the way.
    method ScanRows(payload: seq<Byte>) returns (rows: Rows, dataBytes: int, isSecond: bool)
      modifies this`isInterlaced
      ensures rows == ReadRows(payload, ESN_SIZE, [], old(isInterlaced), calculatedSize != -1)
      ensures match rows
              case BadRows(interlaced) => isInterlaced == interlaced
              case UnexpectedField => isInterlaced == old(isInterlaced)
              case Rows(srds, interlaced) =>
                isInterlaced == interlaced && dataBytes == DataBytes(srds)
                && isSecond == AnyField(srds)
    {
      var offset: nat, srds: seq<Srd> := ESN_SIZE, [];
      dataBytes, isSecond := 0, false;
      hide ReadRows, AllFit, DataBytes, AnyField, ReadSrd;
      NoRows();
      while true
        invariant |srds| <= 2 && AllFit(srds)
        invariant ReadRows(payload, offset, srds, isInterlaced, calculatedSize != -1)
               == ReadRows(payload, ESN_SIZE, [], old(isInterlaced), calculatedSize != -1)
        invariant dataBytes == DataBytes(srds) && isSecond == AnyField(srds)
        invariant calculatedSize != -1 ==> isInterlaced == old(isInterlaced)
        decreases 3 - |srds|
      {
        ReadRowsUnfold(payload, offset, srds, isInterlaced, calculatedSize != -1);
        if offset + SRD_SIZE > |payload| {
          return BadRows(isInterlaced), dataBytes, isSecond;
        }
        var row := ReadSrd(payload[offset..]);
        if row.length == 0 {
          return Rows(srds, isInterlaced), dataBytes, isSecond;
        }
        if row.field {
          isSecond := true;
          if !isInterlaced {
            if calculatedSize != -1 {
              return UnexpectedField, dataBytes, isSecond;
            }
            isInterlaced := true;
          }
        }
        OneMoreRow(srds, row);
        srds, dataBytes, offset := srds + [row], dataBytes + row.length, offset + SRD_SIZE;
        if !row.continuation {
          return Rows(srds, isInterlaced), dataBytes, isSecond;
        }
        if |srds| == 3 {
          return BadRows(isInterlaced), dataBytes, isSecond;
        }
      }
    }

    method ScanHeaders(payload: seq<Byte>) returns (rows: Rows, dataBytes: int, isSecond: bool)
      requires HasSink()
      modifies this`isInterlaced
      ensures HasSink() && sink.Use() == old(sink.Use())
      ensures rows == ReadRows(payload, ESN_SIZE, [], old(isInterlaced), calculatedSize != -1)
      ensures State() == old(State()).(
        isInterlaced := match rows case Rows(_, interlaced) => interlaced
                                   case BadRows(interlaced) => interlaced
                                   case UnexpectedField => old(isInterlaced))
      ensures rows.Rows? ==> dataBytes == DataBytes(rows.srds) && isSecond == AnyField(rows.srds)
    {
      hide Frames.Valid, Frames.Use, ReadRows, DataBytes, AnyField, AllFit;
      rows, dataBytes, isSecond := ScanRows(payload);
    }

    // The bytes and rows counted, while the packets of a frame follow each other.
    method CountBytes(srds: seq<Srd>, seqNum: int)
      modifies this`countedSize, this`countedRows, this`lastSeq
      ensures State() == VideoParser.CountBytes(old(State()), srds, seqNum)
    {
      hide DataBytes;
      if srds != [] && countedSize == -1 && srds[0].row == 0 && srds[0].offset == 0 {
        countedSize, countedRows, lastSeq := 0, 0, (seqNum - 1) % W32;
      }
      if countedSize != -1 {
        if seqNum != (lastSeq + 1) % W32 {
          countedSize := -1;
        } else if srds != [] {
          AddLengths(srds);
          countedRows := srds[|srds| - 1].row + 1;
        }
      }
    }

    method AddLengths(srds: seq<Srd>)
      modifies this`countedSize
      ensures countedSize == old(countedSize) + DataBytes(srds)
    {
      assert srds[0..] == srds;
      for i := 0 to |srds|
        invariant countedSize + DataBytes(srds[i..]) == old(countedSize) + DataBytes(srds)
      {
        assert srds[i..][1..] == srds[i + 1..];
        countedSize := countedSize + srds[i].length;
      }
    }

    // The bytes of the row that the segments leave off in.
    method CountRowBytes(srds: seq<Srd>)
      modifies this`rowSize
      ensures rowSize == RowBytes(old(rowSize), srds)
    {
      assert srds[0..] == srds;
      for i := 0 to |srds|
        invariant RowBytes(rowSize, srds[i..]) == RowBytes(old(rowSize), srds)
      {
        assert srds[i..][1..] == srds[i + 1..];
        if srds[i].offset == 0 {
          rowSize := 0;
        }
        rowSize := rowSize + srds[i].length;
      }
    }

    method CountRows(srds: seq<Srd>)
      requires srds != []
      modifies this`numRows, this`prevRows, this`is420, this`rowSize
      ensures State() == VideoParser.CountRows(old(State()), srds)
    {
      numRows := srds[|srds| - 1].row + 1;
      if prevRows == -1 {
        prevRows := numRows;
      } else if prevRows != numRows {
        is420 := numRows - prevRows == 2;
        prevRows := numRows;
      }
      if srds[0].offset == 0 {
        rowSize := 0;
      }
      if rowSize != -1 {
        CountRowBytes(srds);
      }
    }

    /** One packet, counted: its bytes, and what its row headers tell of the frame. */
    method CountFrameSize(srds: seq<Srd>, seqNum: int)
      modifies this
      ensures partial == old(partial)
      ensures State() == VideoParser.CountFrameSize(old(State()), srds, seqNum)
    {
      hide VideoParser.CountBytes, VideoParser.CountRows;
      CountBytes(srds, seqNum);
      if srds != [] {
        CountRows(srds);
      }
    }

    /** The size that frames are given from here on. */
    method CalculateFrameSize()
      modifies this`countedSize, this`calculatedSize
      ensures State() == VideoParser.CalculateFrameSize(old(State()))
    {
      var size := -1;
      if numRows >= 0 && rowSize >= 0 {
        size := (numRows + if isInterlaced then 1 else 0) * rowSize;
      }
      if countedSize != -1 && isInterlaced && countedRows > 0 {
        countedSize := countedSize + countedSize / countedRows;
      }
      if size < countedSize {
        size := countedSize;
      }
      calculatedSize := if size > 0 && size <= INT_MAX then size else -1;
    }

    /** Until a marker: learns the size. */
    method Learn(isEnd: bool, srds: seq<Srd>, seqNum: int)
      modifies this
      ensures partial == old(partial)
      ensures State() == VideoParser.Learn(old(State()), isEnd, srds, seqNum)
    {
      hide VideoParser.CountFrameSize;
      if calculatedSize == -1 {
        CountFrameSize(srds, seqNum);
      }
      lastSeq := seqNum;
      if !isEnd {
        return;
      }
      if calculatedSize == -1 && (numRows == -1 || rowSize == -1) && countedSize == -1 {
        return;
      }
      isWaiting, inBytes, outBytes := false, 0, 0;
    }

    /** Whether the packet goes on what came before; if not, the frame begun is given up. */
    method CheckSequence(isEnd: bool, srds: seq<Srd>, seqNum: int) returns (isGoingOn: bool)
      modifies this
      ensures partial == old(partial)
      ensures (State(), isGoingOn) == VideoParser.CheckSequence(old(State()), isEnd, srds, seqNum)
    {
      var prev := lastSeq;
      lastSeq := seqNum;
      isGoingOn := true;
      if seqNum != (prev + 1) % W32 {
        if inBytes != 0 || srds == [] || srds[0].row != 0 || srds[0].offset != 0 {
          stats := stats.(framesIncomplete := stats.framesIncomplete + 1);
          isWaiting, inBytes, outBytes := !isEnd, 0, 0;
          return false;
        }
        stats := stats.(gaps := stats.gaps + 1);
      }
    }

    // The size learned, worked out when a frame is needed.
    method EnsureSize(srds: seq<Srd>)
      requires Inv(State()) && partial == null
      modifies this`isInterlaced, this`countedSize, this`calculatedSize
      ensures State() == VideoParser.EnsureSize(old(State()), srds)
    {
      hide VideoParser.CalculateFrameSize;
      if calculatedSize == -1 {
        isInterlaced := isInterlaced || (srds != [] && srds[|srds| - 1].field);
        CalculateFrameSize();
      }
    }

    // A frame of the size learned from the pool.
    method GetFrame(isEnd: bool, hasFrame: bool, block: Memory) returns (got: bool, ghost env: Env)
      requires Valid() && partial == null && calculatedSize != -1
      modifies Repr()
      ensures (State(), got) == VideoParser.GetFrame(old(State()), isEnd, env)
      ensures env.accepts == old(HasRoom(sink.Use()))
      ensures hasFrame && block.Block? ==> env.hasMemory
      ensures HasSink() && fresh(Repr() - old(Repr()))
      ensures fresh(sink.parts - old(sink.parts)) && fresh(sink.contents - old(sink.contents))
      ensures sink.Use() == old(sink.Use())
    {
      hide Frames.Valid, Frames.Use, HasRoom;
      ghost var accepts := HasRoom(sink.Use());
      var frame := sink.Get(calculatedSize, hasFrame, block);
      partial := frame;
      if frame == null {
        env := Env(false, _ => 0, accepts);
        stats := stats.(droppedFrames := stats.droppedFrames + 1);
        isWaiting := !isEnd;
        return false, env;
      }
      ghost var bytes := frame.Bytes();
      env := Env(true, (i: nat) => if i < |bytes| then bytes[i] else 0, accepts);
      assert seq(calculatedSize, env.stale) == bytes;
      inBytes, outBytes := 0, 0;
      got := true;
    }

    /** A frame to fill: the one there is, or one from the pool, of the size learned. */
    method BeginFrame(isEnd: bool, srds: seq<Srd>, hasFrame: bool, block: Memory)
      returns (got: bool, ghost env: Env)
      requires Valid()
      modifies Repr()
      ensures (State(), got) == VideoParser.BeginFrame(old(State()), isEnd, srds, env)
      ensures env.accepts == old(HasRoom(sink.Use()))
      ensures hasFrame && block.Block? ==> env.hasMemory
      ensures HasSink() && fresh(Repr() - old(Repr()))
      ensures fresh(sink.parts - old(sink.parts)) && fresh(sink.contents - old(sink.contents))
      ensures sink.Use() == old(sink.Use())
    {
      hide VideoParser.EnsureSize, VideoParser.GetFrame, Forget;
      hide Frames.Valid, Frames.Use, HasRoom;
      env := Env(true, _ => 0, HasRoom(sink.Use()));
      got := true;
      if partial == null {
        EnsureSize(srds);
        if calculatedSize == -1 {
          ForgetStreamAndFrame();
          return false, env;
        }
        got, env := GetFrame(isEnd, hasFrame, block);
      }
    }

    // The times of a frame are those of its first packet.
    method StampFrame(timestamp: int, todNs: nat)
      requires HasSink() && partial != null
      modifies partial.info
      ensures State() == VideoParser.StampFrame(old(State()), timestamp, todNs)
      ensures HasSink() && sink.Use() == old(sink.Use())
    {
      hide HasSink, Frames.Use;
      if inBytes == 0 {
        Stamp(timestamp, MediaTime.FromNs(todNs));
      }
    }

    method Stamp(rtpTime: int, tod: MediaTime.TimeOfDay)
      requires HasSink() && partial != null
      modifies partial.info`rtpTime, partial.info`tod
      ensures partial.info.rtpTime == rtpTime && partial.info.tod == tod
      ensures HasSink() && sink.Use() == old(sink.Use()) && sink.delivered == old(sink.delivered)
      ensures partial.Bytes() == old(partial.Bytes())
    {
      sink.IsOfPool();
      hide Frames.Valid, Frames.Use;
      partial.info.rtpTime := rtpTime;
      partial.info.tod := tod;
    }

    /** Puts a segment behind what the partial frame holds; only its bytes from there on change. */
    method AppendSegment(src: seq<Byte>)
      requires Valid() && partial != null && inBytes + |src| <= calculatedSize
      modifies this`inBytes, this`outBytes, partial.data
      ensures State() == VideoParser.AppendSegment(format, old(State()), src)
      ensures HasSink() && sink.Use() == old(sink.Use())
    {
      sink.IsOfPool();
      SegmentFits(|src|);
      hide Write, Frames.Valid, Frames.Use, HasSink, Inv, PoolFrame.IsSound;
      WriteAndCount(src);
      assert partial.Bytes() == partial.data[..partial.size];
    }

    method WriteAndCount(src: seq<Byte>)
      requires HasSink() && partial != null && outBytes >= 0
      requires outBytes + |src| <= partial.size <= partial.data.Length
      modifies this`inBytes, this`outBytes, partial.data
      ensures HasSink() && sink.Use() == old(sink.Use()) && sink.delivered == old(sink.delivered)
      ensures inBytes == old(inBytes) + |src| && outBytes == old(outBytes) + OutBytes(format, |src|)
      ensures partial.data[..partial.size]
           == Write(format, old(partial.data[..partial.size]), old(outBytes), src)
    {
      hide HasSink, Write, Frames.Use, PoolFrame.IsSound;
      WriteNext(src);
      Count(|src|);
    }

    method WriteNext(src: seq<Byte>)
      requires HasSink() && partial != null && outBytes >= 0
      requires outBytes + |src| <= partial.size <= partial.data.Length
      modifies partial.data
      ensures HasSink() && sink.Use() == old(sink.Use()) && sink.delivered == old(sink.delivered)
      ensures partial.data[..partial.size]
           == Write(format, old(partial.data[..partial.size]), outBytes, src)
    {
      sink.IsOfPool();
      hide Write, Frames.Valid, Frames.Use, PoolFrame.IsSound;
      WriteSegment(format, partial.data, partial.size, outBytes, src);
    }

    method Count(n: nat)
      requires HasSink()
      modifies this`inBytes, this`outBytes
      ensures HasSink() && sink.Use() == old(sink.Use())
      ensures inBytes == old(inBytes) + n && outBytes == old(outBytes) + OutBytes(format, n)
    {
      hide Frames.Valid, Frames.Use;
      outBytes := outBytes + OutBytes(format, n);
      inBytes := inBytes + n;
    }

    lemma SegmentFits(n: nat)
      requires Inv(State()) && partial != null && partial.IsSound() && inBytes + n <= calculatedSize
      ensures 0 <= outBytes && outBytes + n <= partial.size <= partial.data.Length
      ensures partial.Bytes() == partial.data[..partial.size]
    {
    }

    /** The segments of a packet; with one that does not fit the parser starts over. */
    method AppendSegments(srds: seq<Srd>, src: seq<Byte>)
      requires Valid() && partial != null && AllFit(srds) && DataBytes(srds) <= |src|
      modifies Repr()
      ensures partial == old(partial) || partial == null
      ensures State() == VideoParser.AppendSegments(format, old(State()), srds, src)
      ensures HasSink() && fresh(Repr() - old(Repr()))
      ensures fresh(sink.parts - old(sink.parts)) && fresh(sink.contents - old(sink.contents))
      ensures sink.Use() == old(sink.Use())
    {
      hide Frames.Valid, Frames.Use, HasRoom;
      sink.IsOfPool();
      hide Inv, VideoParser.AppendSegments, AllFit, DataBytes, SizeError;
      var fit := AppendFitting(srds, src);
      if !fit {
        CountSizeError();
      }
    }

    // The segments until one does not fit.
    method AppendFitting(srds: seq<Srd>, src: seq<Byte>) returns (fit: bool)
      requires Valid() && partial != null && AllFit(srds) && DataBytes(srds) <= |src|
      modifies this`inBytes, this`outBytes, partial.data
      ensures HasSink() && sink.Use() == old(sink.Use())
      ensures VideoParser.AppendSegments(format, old(State()), srds, src)
           == if fit then State() else SizeError(State())
    {
      hide Inv, VideoParser.AppendSegment, AllFit, DataBytes, Frames.Valid, Frames.Use;
      var done: nat := 0;
      assert srds[0..] == srds && src[0..] == src;
      for i := 0 to |srds|
        invariant done <= |src| && Valid() && sink.Use() == old(sink.Use())
        invariant AllFit(srds[i..]) && DataBytes(srds[i..]) <= |src[done..]|
        invariant VideoParser.AppendSegments(format, State(), srds[i..], src[done..])
               == VideoParser.AppendSegments(format, old(State()), srds, src)
      {
        NextSegment(format, State(), srds[i..], src[done..]);
        var length: nat := srds[i].length;
        assert srds[i..][0] == srds[i] && srds[i..][1..] == srds[i + 1..];
        assert src[done..][..length] == src[done..done + length];
        assert src[done..][length..] == src[done + length..];
        if inBytes + length > calculatedSize {
          return false;
        }
        AppendSegment(src[done..done + length]);
        done := done + length;
      }
      assert srds[|srds|..] == [];
      NoSegments(format, State(), src[done..]);
      fit := true;
    }

    /** The frame goes out with its rows; those of a field are as many as its bytes make. */
    method DeliverFrame(isSecondField: bool)
      requires Valid() && partial != null
      modifies Repr()
      ensures sink.AreIntact(old(|sink.Use().waiting|))
      ensures partial == null
      ensures State() == Deliver(format, old(State()), isSecondField,
                                 old(HasRoom(sink.Use())))
      ensures HasSink() && fresh(Repr() - old(Repr()))
      ensures fresh(sink.parts - old(sink.parts)) && fresh(sink.contents - old(sink.contents))
      ensures HasOneMore(old(sink.Use()), sink.Use())
    {
      hide Frames.Valid, Frames.Use, Frames.AreIntact, HasRoom, FrameOf, HasOneMore;
      sink.IsOfPool();
      Describe(isSecondField);
      ToSink(partial);
      inBytes, outBytes := 0, 0;
    }

    // What the application is told of the frame.
    method Describe(isSecondField: bool)
      requires Valid() && partial != null
      modifies partial.info
      ensures HasSink() && sink.Use() == old(sink.Use()) && State() == old(State())
      ensures FrameOf(partial)
           == Frame(partial.Bytes(), outBytes, if isSecondField then 1 else 0,
                    if isInterlaced && LineSize(format, rowSize) > 0
                    then outBytes / LineSize(format, rowSize) else numRows,
                    is420, partial.info.rtpTime, partial.info.tod)
    {
      hide Frames.Valid, Frames.Use;
      sink.IsOfPool();
      var lineSize := if rowSize < 0 then 0
                      else if format == Uyvy10To8 then rowSize / 5 * 4 else rowSize;
      partial.info.numValid := outBytes;
      partial.info.field := if isSecondField then 1 else 0;
      partial.info.numRows := if isInterlaced && lineSize > 0 then outBytes / lineSize else numRows;
      partial.info.is420 := is420;
    }

    // The frame is the application's, or, with the FIFO full, the pool's again.
    method ToSink(frame: PoolFrame)
      requires HasSink() && partial == frame
      modifies Repr()
      ensures sink.AreIntact(old(|sink.Use().waiting|))
      ensures var accepts := old(HasRoom(sink.Use()));
        State() == old(State()).(
          partial := NoFrame, stats := old(stats).(framesOk := old(stats).framesOk + 1,
                                                   droppedFrames := old(stats).droppedFrames
                                                                    + if accepts then 0 else 1),
          delivered := old(sink.delivered + if accepts then [FrameOf(frame)] else []))
      ensures HasSink() && fresh(Repr() - old(Repr())) && partial == null
      ensures fresh(sink.parts - old(sink.parts)) && fresh(sink.contents - old(sink.contents))
      ensures HasOneMore(old(sink.Use()), sink.Use())
    {
      hide Frames.Valid, Frames.Use, Frames.AreIntact, FrameOf, HasRoom;
      stats := stats.(framesOk := stats.framesOk + 1);
      var accepted := sink.Deliver(frame);
      partial := null;
      if !accepted {
        stats := stats.(droppedFrames := stats.droppedFrames + 1);
      }
    }

    // The segments of a packet into the frame being received, and its delivery at the end.
    method FillFrame(rtp: Rtp, srds: seq<Srd>, isSecond: bool, src: seq<Byte>, todNs: nat,
                     ghost env: Env)
      requires Valid() && partial != null && AllFit(srds) && DataBytes(srds) <= |src|
      requires isSecond == AnyField(srds)
      requires env.accepts == HasRoom(sink.Use())
      modifies Repr()
      ensures sink.AreIntact(old(|sink.Use().waiting|))
      ensures State() == VideoParser.FillFrame(format, old(State()), rtp, srds, src, todNs, env)
      ensures HasSink() && fresh(Repr() - old(Repr()))
      ensures fresh(sink.parts - old(sink.parts)) && fresh(sink.contents - old(sink.contents))
      ensures HasOneMore(old(sink.Use()), sink.Use())
    {
      hide Frames.Valid, Frames.Use, Frames.AreIntact, HasRoom;
      sink.IsOfPool();
      hide VideoParser.StampFrame, VideoParser.AppendSegments, Deliver, AllFit, DataBytes;
      hide AnyField;
      StampKeepsInv(State(), rtp.timestamp, todNs);
      StampFrame(rtp.timestamp, todNs);
      AppendSegments(srds, src);
      if rtp.marker && partial != null {
        DeliverFrame(isSecond);
      } else {
        sink.NoneIsNew();
      }
    }

    // What is done with the rows of a packet, once read.
    method HandleRows(rtp: Rtp, seqNum: int, srds: seq<Srd>, isSecond: bool, src: seq<Byte>,
                      todNs: nat, hasFrame: bool, block: Memory) returns (ghost env: Env)
      requires Valid() && AllFit(srds) && DataBytes(srds) <= |src|
      requires isSecond == AnyField(srds)
      modifies Repr()
      ensures sink.AreIntact(old(|sink.Use().waiting|))
      ensures State() == VideoParser.HandleRows(format, old(State()), rtp, seqNum, srds, src, todNs,
                                                env)
      ensures env.accepts == old(HasRoom(sink.Use()))
      ensures hasFrame && block.Block? ==> env.hasMemory
      ensures HasSink() && fresh(Repr() - old(Repr()))
      ensures fresh(sink.parts - old(sink.parts)) && fresh(sink.contents - old(sink.contents))
      ensures HasOneMore(old(sink.Use()), sink.Use())
    {
      hide Frames.Valid, Frames.Use, Frames.AreIntact, HasRoom;
      hide VideoParser.Learn, VideoParser.CheckSequence, VideoParser.BeginFrame, AllFit;
      hide VideoParser.FillFrame, DataBytes, AnyField, Inv;
      env := Env(true, _ => 0, HasRoom(sink.Use()));
      if isWaiting {
        Learn(rtp.marker, srds, seqNum);
        sink.NoneIsNew();
        return env;
      }
      CheckKeepsInv(State(), rtp.marker, srds, seqNum);
      var isGoingOn := CheckSequence(rtp.marker, srds, seqNum);
      if !isGoingOn {
        sink.NoneIsNew();
        return env;
      }
      var got;
      got, env := BeginFrame(rtp.marker, srds, hasFrame, block);
      if got {
        HasPartial(State());
        FillFrame(rtp, srds, isSecond, src, todNs, env);
      } else {
        sink.NoneIsNew();
      }
    }

    /**
     * A packet that a pipe hands over, with what memory there is for a frame. Whatever it is,
     * each frame stays free, or being filled, or waiting, or with the application, and those
     * that wait stay as they were delivered.
     */
    method Parse(packet: seq<Byte>, hasFrame: bool, block: Memory) returns (ghost env: Env)
      requires Valid()
      modifies Repr()
      ensures old(sink.AreIntact(0)) ==> sink.AreIntact(0)
      ensures State() == Step(format, old(State()), ArrivalOf(packet), env) && Valid()
      ensures env.accepts == old(HasRoom(sink.Use()))
      ensures hasFrame && block.Block? ==> env.hasMemory
      ensures HasSink() && fresh(Repr() - old(Repr()))
      ensures fresh(sink.parts - old(sink.parts)) && fresh(sink.contents - old(sink.contents))
      ensures HasOneMore(old(sink.Use()), sink.Use())
    {
      ghost var s, queue := State(), sink.Waiting();
      WaitingIsApart();
      sink.NumbersAdd();
      hide Valid, HasSink, State, Step, HasRoom, Inv, Frames.Valid, FrameOf, Frames.AreIntact;
      hide Frames.Use, Frames.Waiting, Frames.Shown, Frames.IsKept;
      env := ParsePacket(packet, hasFrame, block);
      StepKeepsDelivered(format, s, ArrivalOf(packet), env);
      if old(sink.AreIntact(0)) {
        sink.WaitingIsKept();
        sink.NumbersAdd();
        sink.ShownStays(queue);
        sink.MoreAreIntact(s.delivered, queue);
      }
    }

    // No frame that waits is the parser's to change.
    lemma WaitingIsApart()
      requires Valid()
      ensures null !in sink.Waiting()
      ensures forall f: PoolFrame | f in sink.Waiting() ::
                sink.IsKept(f) && f !in Repr() && f.data !in Repr() && f.info !in Repr()
    {
      sink.WaitingIsKept();
      hide Inv, Frames.Valid, Frames.Use, Frames.Waiting;
      forall f: PoolFrame | f in sink.Waiting()
        ensures f !in Repr() && f.data !in Repr() && f.info !in Repr()
      {
        sink.OthersAreKept(f);
      }
    }

    // The same, whatever the frames are.
    method ParsePacket(packet: seq<Byte>, hasFrame: bool, block: Memory) returns (ghost env: Env)
      requires Valid()
      modifies Repr()
      ensures sink.AreIntact(old(|sink.Use().waiting|))
      ensures State() == Step(format, old(State()), ArrivalOf(packet), env) && Valid()
      ensures env.accepts == old(HasRoom(sink.Use()))
      ensures hasFrame && block.Block? ==> env.hasMemory
      ensures HasSink() && fresh(Repr() - old(Repr()))
      ensures fresh(sink.parts - old(sink.parts)) && fresh(sink.contents - old(sink.contents))
      ensures HasOneMore(old(sink.Use()), sink.Use())
    {
      hide Frames.Valid, Frames.Use, Frames.AreIntact, HasRoom;
      hide Inv, VideoParser.HandleRows, ReadRows, DataBytes, AnyField, AllFit, ReadRtp;
      hide NetPackets.Parse, BadPacket, SizeError, SeqNum;
      env := Env(true, _ => 0, HasRoom(sink.Use()));
      var udp := NetPackets.Parse(packet);
      if udp == NoPacket || |udp.payload| < RTP_HEADER_SIZE + ESN_SIZE {
        stats := stats.(ipPacketErrors := stats.ipPacketErrors + 1);
        sink.NoneIsNew();
        return env;
      }
      var rtp := ReadRtp(udp.payload);
      env := ParsePayload(rtp, udp.payload[RTP_HEADER_SIZE..], udp.todNs, hasFrame, block);
    }

    // What follows the RTP header: row headers, and the data they describe.
    method ParsePayload(rtp: Rtp, payload: seq<Byte>, todNs: nat, hasFrame: bool, block: Memory)
      returns (ghost env: Env)
      requires Valid() && |payload| >= ESN_SIZE
      modifies Repr()
      ensures sink.AreIntact(old(|sink.Use().waiting|))
      ensures State() == HandleBody(format, old(State()), rtp, payload, todNs, env)
      ensures env.accepts == old(HasRoom(sink.Use()))
      ensures hasFrame && block.Block? ==> env.hasMemory
      ensures HasSink() && fresh(Repr() - old(Repr()))
      ensures fresh(sink.parts - old(sink.parts)) && fresh(sink.contents - old(sink.contents))
      ensures HasOneMore(old(sink.Use()), sink.Use())
    {
      hide Frames.Valid, Frames.Use, Frames.AreIntact, HasRoom;
      hide Inv, VideoParser.HandleRows, ReadRows, DataBytes, AnyField, AllFit;
      hide BadPacket, SizeError, SeqNum;
      env := Env(true, _ => 0, HasRoom(sink.Use()));
      ghost var was := State();
      BodyIs(format, was, rtp, payload, todNs, env);
      var ok, srds, isSecond, dataOffset := ReadRowHeaders(payload);
      if !ok {
        sink.NoneIsNew();
        return env;
      }
      env := HandleRows(rtp, SeqNum(payload, rtp), srds, isSecond, payload[dataOffset..], todNs,
                        hasFrame, block);
      BodyIs(format, was, rtp, payload, todNs, env);
    }

    /** Reads and checks the row headers; what is wrong with them decides what is forgotten. */
    method ReadRowHeaders(payload: seq<Byte>) returns (ok: bool, srds: seq<Srd>, isSecond: bool,
                                                       dataOffset: nat)
      requires HasSink() && |payload| >= ESN_SIZE
      modifies Repr()
      ensures HasSink() && fresh(Repr() - old(Repr()))
      ensures fresh(sink.parts - old(sink.parts)) && fresh(sink.contents - old(sink.contents))
      ensures sink.Use() == old(sink.Use())
      ensures var s := old(State());
        match ReadRows(payload, ESN_SIZE, [], s.isInterlaced, s.calculatedSize != -1)
        case BadRows(interlaced) => !ok && State() == BadPacket(s, interlaced)
        case UnexpectedField => !ok && State() == SizeError(s)
        case Rows(rows, interlaced) =>
          && dataOffset == ESN_SIZE + SRD_SIZE * |rows|
          && ok == (dataOffset + DataBytes(rows) <= |payload|)
          && State() == (if ok then s.(isInterlaced := interlaced) else BadPacket(s, interlaced))
          && (ok ==> && srds == rows && isSecond == AnyField(rows) && partial == old(partial)
                     && dataOffset <= |payload|)
    {
      hide Frames.Valid, Frames.Use, HasRoom;
      NoRows();
      hide ReadRows, DataBytes, AnyField, AllFit, HasSink;
      ok, srds, dataOffset := false, [], 0;
      var rows, dataBytes;
      rows, dataBytes, isSecond := ScanHeaders(payload);
      match rows
      case BadRows(_) => CountPacketError();
      case UnexpectedField => CountSizeError();
      case Rows(read, _) =>
        DataBytesNonNegative(read);
        srds := read;
        dataOffset := ESN_SIZE + SRD_SIZE * |srds|;
        if dataOffset + dataBytes > |payload| {
          CountPacketError();
        } else {
          ok := true;
        }
    }
  }

  lemma StampKeepsInv(s: RxState, timestamp: int, todNs: nat)
    requires Inv(s) && s.partial.Partial?
    ensures Inv(VideoParser.StampFrame(s, timestamp, todNs))
    ensures VideoParser.StampFrame(s, timestamp, todNs).partial.Partial?
  {
  }

  lemma CheckKeepsInv(s: RxState, isEnd: bool, srds: seq<Srd>, seqNum: int)
    requires Inv(s)
    ensures Inv(VideoParser.CheckSequence(s, isEnd, srds, seqNum).0)
  {
  }

  lemma HasPartial(s: RxState)
    requires Inv(s)
    ensures s.partial.Partial? ==> |s.partial.data| == s.calculatedSize
  {
  }

  // What is done with a packet, by what its row headers are.
  lemma BodyIs(format: Format, s: RxState, rtp: Rtp, body: seq<Byte>, todNs: nat, env: Env)
    requires Inv(s) && |body| >= ESN_SIZE
    ensures var t := HandleBody(format, s, rtp, body, todNs, env);
      match ReadRows(body, ESN_SIZE, [], s.isInterlaced, s.calculatedSize != -1)
      case BadRows(interlaced) => t == BadPacket(s, interlaced)
      case UnexpectedField => t == SizeError(s)
      case Rows(srds, interlaced) =>
        var at := ESN_SIZE + SRD_SIZE * |srds|;
        if at + DataBytes(srds) > |body| then t == BadPacket(s, interlaced)
        else
          && Inv(s.(isInterlaced := interlaced)) && AllFit(srds) && at <= |body|
          && DataBytes(srds) <= |body[at..]|
          && t == VideoParser.HandleRows(format, s.(isInterlaced := interlaced), rtp,
                                         SeqNum(body, rtp), srds, body[at..], todNs, env)
  {
    NoRows();
    hide VideoParser.HandleRows, ReadRows, DataBytes, BadPacket, SizeError, SeqNum, AllFit;
    var rows := ReadRows(body, ESN_SIZE, [], s.isInterlaced, s.calculatedSize != -1);
    if rows.Rows? {
      DataBytesNonNegative(rows.srds);
    }
  }

  /** What was delivered stays, whatever packet comes. */
  lemma StepKeepsDelivered(format: Format, s: RxState, arrival: Arrival, env: Env)
    requires Inv(s)
    ensures s.delivered <= Step(format, s, arrival, env).delivered
  {
    if arrival.Arrived? && |arrival.datagram.payload| >= RTP_HEADER_SIZE + ESN_SIZE {
      BodyKeepsDelivered(format, s, ReadRtp(arrival.datagram.payload),
                         arrival.datagram.payload[RTP_HEADER_SIZE..], arrival.datagram.todNs, env);
    }
    hide Inv, HandleBody;
  }

  lemma BodyKeepsDelivered(format: Format, s: RxState, rtp: Rtp, body: seq<Byte>, todNs: nat,
                           env: Env)
    requires Inv(s) && |body| >= ESN_SIZE
    ensures s.delivered <= HandleBody(format, s, rtp, body, todNs, env).delivered
  {
    NoRows();
    hide Inv, AllFit, DataBytes, VideoParser.HandleRows, ReadRows, HandleBody, BadPacket, SizeError;
    hide SeqNum;
    BodyIs(format, s, rtp, body, todNs, env);
    match ReadRows(body, ESN_SIZE, [], s.isInterlaced, s.calculatedSize != -1)
    case BadRows(isInterlaced) => ErrorsDeliverNothing(s, isInterlaced);
    case UnexpectedField => ErrorsDeliverNothing(s, s.isInterlaced);
    case Rows(srds, isInterlaced) =>
      ErrorsDeliverNothing(s, isInterlaced);
      var at := ESN_SIZE + SRD_SIZE * |srds|;
      if at + DataBytes(srds) <= |body| {
        RowsDeliverOne(format, s.(isInterlaced := isInterlaced), rtp, SeqNum(body, rtp), srds,
                       body[at..], todNs, env);
      }
  }

  // The segment that is appended next.
  lemma NextSegment(format: Format, s: RxState, srds: seq<Srd>, src: seq<Byte>)
    requires Inv(s) && s.partial.Partial? && AllFit(srds) && DataBytes(srds) <= |src| && srds != []
    ensures 0 <= srds[0].length <= |src| && AllFit(srds[1..])
    ensures DataBytes(srds[1..]) <= |src[srds[0].length..]|
    ensures VideoParser.AppendSegments(format, s, srds, src)
         == if s.inBytes + srds[0].length > s.calculatedSize then SizeError(s)
            else VideoParser.AppendSegments(format,
                   VideoParser.AppendSegment(format, s, src[..srds[0].length]), srds[1..],
                   src[srds[0].length..])
  {
    hide Inv;
    assert SrdFits(srds[0]);
    DataBytesNonNegative(srds[1..]);
  }

  lemma NoSegments(format: Format, s: RxState, src: seq<Byte>)
    requires Inv(s) && s.partial.Partial?
    ensures AllFit([]) && DataBytes([]) == 0 <= |src|
    ensures VideoParser.AppendSegments(format, s, [], src) == s
  {
  }

  lemma NoRows()
    ensures AllFit([]) && DataBytes([]) == 0 && !AnyField([])
  {
  }

  // What the next row header adds.
  lemma ReadRowsUnfold(payload: seq<Byte>, at: nat, srds: seq<Srd>, interlaced: bool, known: bool)
    requires |srds| <= 2 && AllFit(srds)
    ensures var all := ReadRows(payload, at, srds, interlaced, known);
      if at + SRD_SIZE > |payload| then all == BadRows(interlaced)
      else
        var row := ReadSrd(payload[at..]);
        if row.length == 0 then all == Rows(srds, interlaced)
        else if row.field && !interlaced && known then all == UnexpectedField
        else
          && AllFit(srds + [row])
          && if !row.continuation then all == Rows(srds + [row], interlaced || row.field)
             else if |srds| == 2 then all == BadRows(interlaced || row.field)
             else all == ReadRows(payload, at + SRD_SIZE, srds + [row],
                                  interlaced || row.field, known)
  {
    hide ReadSrd;
  }

  lemma {:induction false} OneMoreRow(srds: seq<Srd>, row: Srd)
    ensures DataBytes(srds + [row]) == DataBytes(srds) + row.length
    ensures AnyField(srds + [row]) == (AnyField(srds) || row.field)
  {
    DataBytesOneMore(srds, row);
    if AnyField(srds) {
      var r :| r in srds && r.field;
      assert r in srds + [row];
    }
    if row.field {
      assert row in srds + [row];
    }
  }

  lemma {:induction false} DataBytesOneMore(srds: seq<Srd>, row: Srd)
    ensures DataBytes(srds + [row]) == DataBytes(srds) + row.length
  {
    if srds == [] {
      assert [row][1..] == [];
    } else {
      assert (srds + [row])[1..] == srds[1..] + [row];
      DataBytesOneMore(srds[1..], row);
    }
  }
}
