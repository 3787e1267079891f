// Source/AvFifo/DtAvTxFifo.c: frames from the FIFO into the pipe.

module Transmitter {
  import opened Arithmetic
  import opened Bytes
  import opened Headers
  import opened NetPackets
  import opened PipeWriter
  import opened SharedRing
  import opened TxStreams
  import opened VideoCut
  import opened VideoDatagrams
  import opened VideoPacketizer
  import opened VideoPackets
  import opened VideoSafety
  import opened VideoStream
  import opened VideoTx

  const PAGE_BYTES: nat := 4096
  const MIN_SHARED_BUFFER_BYTES: nat := 64 * 1024

  // ---------------------------------------------------------------- Room for a frame

  /** As many packets as a frame makes, counted field by field when it has two. */
  function PacketsPerFrame(c: TxConfig): nat
    requires Valid(c)
  {
    if !c.isInterlaced && !c.isPsf then PacketCount(c, c.numRows)
    else PacketCount(c, RowsInField(c, 0)) + PacketCount(c, RowsInField(c, 1))
  }

  /** The room that the packets of a frame need at most. */
  function FrameBytes(n: Net, c: TxConfig): nat
    requires Valid(c)
  {
    PacketsPerFrame(c) * MaxPacket(n, c.payloadSize)
  }

  /** It is enough for the packets of either field. */
  lemma FrameBytesAreEnough(n: Net, c: TxConfig, field: int)
    requires Valid(c)
    ensures PacketCount(c, RowsInField(c, field)) * MaxPacket(n, c.payloadSize) <= FrameBytes(n, c)
  {
    hide PacketCount, MaxPacket;
    var count := PacketCount(c, RowsInField(c, field));
    assert count <= PacketsPerFrame(c) by {
      assert RowsInField(c, field) == RowsInField(c, if field == 0 then 0 else 1);
    }
    MulMonotone(count, PacketsPerFrame(c), MaxPacket(n, c.payloadSize));
  }

  function RoundUpToPagesPlusOne(size: nat): nat {
    ((size + PAGE_BYTES - 1) / PAGE_BYTES + 1) * PAGE_BYTES
  }

  /** The bytes set up: those of 80 ms, of two frames, or of a frame's packets, the most. */
  function SharedBufferSize(n: Net, c: TxConfig, numerator: nat, denominator: nat): nat
    requires Valid(c) && denominator > 0
  {
    var frame := c.numRows * c.rowSize;
    var rate := frame * 8 * numerator / (100 * denominator);
    var size := if rate < 2 * frame then 2 * frame else rate;
    var needed := if size < FrameBytes(n, c) then FrameBytes(n, c) else size;
    RoundUpToPagesPlusOne(if needed < MIN_SHARED_BUFFER_BYTES then MIN_SHARED_BUFFER_BYTES
                          else needed)
  }

  /** The buffer that is allocated: a whole number of prefetch sizes. */
  function BufferSize(size: nat, prefetchPages: nat): nat
    requires prefetchPages > 0
  {
    var unit := PAGE_BYTES * prefetchPages;
    (size + unit - 1) / unit * unit
  }

  /** The buffer set up for a video stream holds the packets of any of its frames at once. */
  lemma EveryFrameFits(n: Net, c: TxConfig, numerator: nat, denominator: nat, prefetchPages: nat,
                       word: nat)
    requires Valid(c) && denominator > 0 && prefetchPages > 0 && word <= PAGE_BYTES
    ensures FrameBytes(n, c)
         <= BufferSize(SharedBufferSize(n, c, numerator, denominator), prefetchPages) - word
  {
    hide FrameBytes;
    var size := SharedBufferSize(n, c, numerator, denominator);
    assert FrameBytes(n, c) + PAGE_BYTES <= size;
    hide SharedBufferSize;
    RoundedUpIsMore(size, PAGE_BYTES * prefetchPages);
  }

  lemma RoundedUpIsMore(size: nat, unit: nat)
    requires unit > 0
    ensures size <= (size + unit - 1) / unit * unit
  {
    DivBounds(size + unit - 1, unit);
  }

  /**
   * It is whole pages, and one more than hold 80 ms of rows, two frames of them, the packets of a
   * frame, and 64 kibibytes; and less than two more than hold the largest of these.
   */
  lemma BufferIsEnough(n: Net, c: TxConfig, numerator: nat, denominator: nat)
    requires Valid(c) && denominator > 0
    ensures var size, frame := SharedBufferSize(n, c, numerator, denominator), c.numRows * c.rowSize;
      var room := size - 4096;
      && size % 4096 == 0 && room >= 65_536 && room >= 2 * frame && room >= FrameBytes(n, c)
      && 8 * frame * numerator < (room + 1) * (100 * denominator)
      && (room < 65_536 + 4096 || room < 2 * frame + 4096 || room < FrameBytes(n, c) + 4096
          || (room - 4095) * (100 * denominator) <= 8 * frame * numerator)
  {
    hide FrameBytes;
    var frame, d := c.numRows * c.rowSize, 100 * denominator;
    MulMonotone(0, c.numRows, c.rowSize);
    var rate := frame * 8 * numerator / d;
    var size := if rate < 2 * frame then 2 * frame else rate;
    var needed := if size < FrameBytes(n, c) then FrameBytes(n, c) else size;
    var most := if needed < MIN_SHARED_BUFFER_BYTES then MIN_SHARED_BUFFER_BYTES else needed;
    PagesAre(most);
    hide RoundUpToPagesPlusOne;
    RateIs(frame, numerator, d, RoundUpToPagesPlusOne(most) - 4096);
  }

  lemma RateIs(frame: nat, numerator: nat, d: nat, room: nat)
    requires d > 0
    ensures var rate := frame * 8 * numerator / d;
      && 0 <= rate
      && (room >= rate ==> 8 * frame * numerator < (room + 1) * d)
      && (room < rate + 4096 ==> (room - 4095) * d <= 8 * frame * numerator)
  {
    var rate := frame * 8 * numerator / d;
    DivBounds(frame * 8 * numerator, d);
    assert (rate + 1) * d == d * rate + d;
    if room >= rate {
      MulMonotone(rate + 1, room + 1, d);
    }
    if room < rate + 4096 {
      MulMonotone(room - 4095, rate, d);
    }
  }

  lemma PagesAre(most: nat)
    ensures var room := RoundUpToPagesPlusOne(most) - 4096;
      most <= room < most + 4096 && RoundUpToPagesPlusOne(most) % 4096 == 0
  {
  }

  // ---------------------------------------------------------------- What is sent

  /** A packet in the pipe: its headers, its UDP payload and when it goes out. */
  datatype Posted = Posted(net: Net, payload: seq<Byte>, todNs: nat)

  predicate CanPost(p: Posted) {
    IsNet(p.net) && IsAligned(p.net.alignment)
  }

  predicate AllPost(posted: seq<Posted>) {
    forall i | 0 <= i < |posted| :: CanPost(posted[i])
  }

  /** Packets as bytes, one after the other. */
  function PostedBytes(posted: seq<Posted>): seq<Byte>
    requires AllPost(posted)
  {
    if posted == [] then []
    else
      assert CanPost(posted[0]);
      PacketBytes(posted[0].net, posted[0].payload, 0, posted[0].todNs) + PostedBytes(posted[1..])
  }

  lemma {:induction false} PostedJoin(a: seq<Posted>, b: seq<Posted>)
    requires AllPost(a) && AllPost(b)
    ensures AllPost(a + b) && PostedBytes(a + b) == PostedBytes(a) + PostedBytes(b)
  {
    hide CanPost, PacketBytes;
    if a == [] {
      assert a + b == b;
    } else {
      assert (a + b)[1..] == a[1..] + b && (a + b)[0] == a[0];
      PostedJoin(a[1..], b);
    }
  }

  /** The packets' payloads. */
  function Payloads(posted: seq<Posted>): seq<seq<Byte>> {
    if posted == [] then [] else [posted[0].payload] + Payloads(posted[1..])
  }

  lemma {:induction false} PayloadsJoin(a: seq<Posted>, b: seq<Posted>)
    ensures Payloads(a + b) == Payloads(a) + Payloads(b)
  {
    if a == [] {
      assert a + b == b;
    } else {
      assert (a + b)[1..] == a[1..] + b;
      PayloadsJoin(a[1..], b);
    }
  }

  ghost function PayloadsOf(sent: seq<Sent>): (r: seq<seq<Byte>>)
    requires HavePayloads(sent)
    ensures |r| == |sent|
  {
    if sent == [] then []
    else
      RestHasPayloads(sent);
      [Payload(sent[0].packet)] + PayloadsOf(sent[1..])
  }

  /** Packets of one stream, on the network it started with. */
  predicate ArePosted(n: Net, posted: seq<Posted>) {
    forall i | 0 <= i < |posted| :: CanPost(posted[i]) && IsLike(posted[i].net, n)
  }

  /** Networks that differ in the identification of a packet alone. */
  predicate IsLike(a: Net, b: Net) {
    IsNet(a) && IsNet(b) && a == b.(ipIdentification := a.ipIdentification)
  }

  // The packets of a frame as posted.
  lemma {:induction false} FrameIsPosted(n: Net, sent: seq<Sent>, firstTodNs: int, offset: nat,
                                         spacing: nat) returns (posted: seq<Posted>)
    requires IsNet(n) && IsAligned(n.alignment) && HavePayloads(sent)
    ensures ArePosted(n, posted) && AllPost(posted)
    ensures PostedBytes(posted) == Datagrams(n, sent, firstTodNs, offset, spacing)
    ensures Payloads(posted) == PayloadsOf(sent) && |posted| == |sent|
    decreases |sent|
  {
    hide HavePayloads, PacketBytes, TodOf, NextOffset, Payload, RtpOf, RtpFits;
    if sent == [] {
      return [];
    }
    RestHasPayloads(sent);
    var rest := FrameIsPosted(AfterPacket(n), sent[1..], firstTodNs, NextOffset(offset, spacing),
                              spacing);
    var first := Posted(n, Payload(sent[0].packet), TodOf(firstTodNs, offset));
    posted := [first] + rest;
    assert posted[1..] == rest;
  }

  lemma PostedLike(a: Net, b: Net, posted: seq<Posted>, more: seq<Posted>)
    requires ArePosted(a, posted) && IsLike(b, a) && ArePosted(b, more)
    ensures ArePosted(a, posted + more) && AllPost(posted) && AllPost(more)
    ensures AllPost(posted + more)
  {
  }

  lemma {:induction false} NetStaysAlike(n: Net, count: nat)
    requires IsNet(n)
    ensures IsLike(AfterPackets(n, count), n)
    decreases count
  {
    if count > 0 {
      NetStaysAlike(AfterPacket(n), count - 1);
    }
  }

  // ---------------------------------------------------------------- Which frames are sent

  /** What goes out of frames: those of the right size, the second PsF field with the
      timestamp of the first. */
  function WiresOf(c: TxConfig, source: Source, frames: seq<TxFrame>, prev: nat): seq<WireFrame> {
    if frames == [] then []
    else if !IsAccepted(c, frames[0]) then WiresOf(c, source, frames[1..], prev)
    else
      var rtpTime := if c.isPsf && frames[0].field == 1 then prev else frames[0].rtpTime;
      [WireOf(c, source, frames[0], rtpTime)] + WiresOf(c, source, frames[1..], rtpTime)
  }

  /** The packets of frames have the same payloads whatever number the frames have. */
  lemma {:induction false} NumberIsIrrelevant(c: TxConfig, t: Stream, w: WireFrame, k: nat,
                                              p: Place, before: seq<Byte>, seqNum: nat)
    requires IsPlaceIn(c, w, p, before) && StreamFits(t)
    ensures var a, b := PacketsFrom(c, t, w, k, p, before, seqNum),
                        PacketsFrom(c, t, w, 0, p, before, seqNum);
      HavePayloads(a) && HavePayloads(b) && PayloadsOf(a) == PayloadsOf(b) && |a| == |b|
    decreases p.rowsToDo, c.rowSize - p.rowOffset
  {
    hide IsPlaceIn, PacketAt, CutPacket, Payload, RtpFits, RtpOf, StreamFits, PacketsFrom;
    PacketsUnfold(c, t, w, k, p, before, seqNum);
    PacketsUnfold(c, t, w, 0, p, before, seqNum);
    if p.rowsToDo > 0 {
      InsideHasPlace(c, w, p, before);
      var x, y := PacketAt(c, t, w, k, p, before, seqNum), PacketAt(c, t, w, 0, p, before, seqNum);
      SamePacketOfFrame(c, t, w, k, p, before, seqNum);
      PacketHasPayload(c, t, w, p, before, seqNum);
      var end := CutPacket(c, p).1;
      NumberIsIrrelevant(c, t, w, k, end, before + x.packet.data, seqNum + 1);
      var a := PacketsFrom(c, t, w, k, end, before + x.packet.data, seqNum + 1);
      var b := PacketsFrom(c, t, w, 0, end, before + x.packet.data, seqNum + 1);
      assert ([x] + a)[1..] == a && ([y] + b)[1..] == b;
    }
  }

  lemma SamePacketOfFrame(c: TxConfig, t: Stream, w: WireFrame, k: nat, p: Place,
                          before: seq<Byte>, seqNum: nat)
    requires IsPlaceIn(c, w, p, before) && p.rowsToDo > 0
    ensures PacketAt(c, t, w, k, p, before, seqNum).packet
         == PacketAt(c, t, w, 0, p, before, seqNum).packet
  {
    hide CutPacket, RowHeaders, Sum, IsPlaceIn;
  }

  predicate AreWires(c: TxConfig, wires: seq<WireFrame>) {
    Valid(c) && forall i | 0 <= i < |wires| :: IsFrame(c, wires[i])
  }

  lemma {:induction false} WiresAreFrames(c: TxConfig, source: Source, frames: seq<TxFrame>,
                                          prev: nat)
    requires IsSource(source, c) && prev < W32
    requires forall i | 0 <= i < |frames| :: frames[i].rtpTime < W32
    ensures AreWires(c, WiresOf(c, source, frames, prev))
  {
    hide IsFrame, Wire, IsAccepted, Valid, WireOf, IsSource;
    SourceIsValid(source, c);
    if frames != [] {
      var f := frames[0];
      var rtpTime := if c.isPsf && f.field == 1 then prev else f.rtpTime;
      if IsAccepted(c, f) {
        FrameIsWire(c, source, f, rtpTime);
        WiresAreFrames(c, source, frames[1..], rtpTime);
      } else {
        WiresAreFrames(c, source, frames[1..], prev);
      }
    }
  }

  lemma SourceIsValid(source: Source, c: TxConfig)
    requires IsSource(source, c)
    ensures Valid(c)
  {
  }

  /** The payloads of the packets of frames, one frame after the other. */
  ghost function PayloadStream(c: TxConfig, t: Stream, wires: seq<WireFrame>,
                               seqNum: nat): seq<seq<Byte>>
    requires AreWires(c, wires) && StreamFits(t)
  {
    if wires == [] then []
    else
      var sent := FramePackets(c, t, wires[0], 0, seqNum);
      FrameHasPayloads(c, t, wires[0], seqNum);
      PayloadsOf(sent) + PayloadStream(c, t, wires[1..], (seqNum + |sent|) % W32)
  }

  lemma FrameHasPayloads(c: TxConfig, t: Stream, w: WireFrame, seqNum: nat)
    requires Valid(c) && IsFrame(c, w) && StreamFits(t)
    ensures HavePayloads(FramePackets(c, t, w, 0, seqNum))
  {
    hide PacketsFrom, HavePayloads, RowsOf, IsFrame, Valid;
    StartOfFrame(c, w);
    PacketsHavePayloads(c, t, w, Place(RowsOf(c, w), 0), [], seqNum);
  }

  // Sequence numbers count modulo 2^32.
  lemma {:induction false} NumbersWrap(c: TxConfig, t: Stream, w: WireFrame, p: Place,
                                       before: seq<Byte>, a: nat, b: nat)
    requires IsPlaceIn(c, w, p, before) && a % W32 == b % W32
    ensures PacketsFrom(c, t, w, 0, p, before, a) == PacketsFrom(c, t, w, 0, p, before, b)
    decreases p.rowsToDo, c.rowSize - p.rowOffset
  {
    hide IsPlaceIn, PacketAt, CutPacket, PacketsFrom;
    PacketsUnfold(c, t, w, 0, p, before, a);
    PacketsUnfold(c, t, w, 0, p, before, b);
    if p.rowsToDo > 0 {
      InsideHasPlace(c, w, p, before);
      SamePacket(c, t, w, p, before, a, b);
      var x, end := PacketAt(c, t, w, 0, p, before, a), CutPacket(c, p).1;
      WrapsOn(a, b, 1);
      NumbersWrap(c, t, w, end, before + x.packet.data, a + 1, b + 1);
    }
  }

  lemma WrapsOn(a: nat, b: nat, n: nat)
    requires a % W32 == b % W32
    ensures (a + n) % W32 == (b + n) % W32
  {
  }

  /** They are the payloads of the packets of all the frames. */
  lemma {:induction false} StreamIsAllPackets(c: TxConfig, t: Stream, wires: seq<WireFrame>,
                                              k: nat, a: nat, b: nat)
    requires AreWires(c, wires) && AreFrames(c, wires) && StreamFits(t) && k <= |wires|
    requires AreWires(c, wires[k..]) && a % W32 == b % W32
    ensures HavePayloads(AllPackets(c, t, wires, k, a))
    ensures PayloadsOf(AllPackets(c, t, wires, k, a)) == PayloadStream(c, t, wires[k..], b)
    decreases |wires| - k
  {
    hide PacketsFrom, HavePayloads, RowsOf, IsFrame, Valid, StreamFits, AllPackets, AreFrames;
    hide FramePackets, PayloadStream, PayloadsOf, AreWires;
    if k == |wires| {
      NoFramesLeft(c, t, wires, a);
      NothingToPost();
      assert wires[k..] == [];
      EmptyStream(c, t, b);
    } else {
      FrameHasPackets(c, wires, k);
      var first, same := FramePackets(c, t, wires[k], k, a), FramePackets(c, t, wires[k], 0, b);
      FrameIsTheSame(c, t, wires[k], k, a, b);
      AllUnfold(c, t, wires, k, a);
      WrapsOn(a, b, |first|);
      SmallModulo(b + |first|);
      StreamUnfolds(c, t, wires, k, b);
      StreamIsAllPackets(c, t, wires, k + 1, a + |first|, (b + |first|) % W32);
      PayloadsOfJoin(first, AllPackets(c, t, wires, k + 1, a + |first|));
    }
  }

  lemma FrameIsTheSame(c: TxConfig, t: Stream, w: WireFrame, k: nat, a: nat, b: nat)
    requires Valid(c) && IsFrame(c, w) && StreamFits(t) && a % W32 == b % W32
    ensures var first, same := FramePackets(c, t, w, k, a), FramePackets(c, t, w, 0, b);
      && HavePayloads(first) && HavePayloads(same) && PayloadsOf(first) == PayloadsOf(same)
      && |first| == |same|
  {
    hide PacketsFrom, HavePayloads, RowsOf, IsFrame, Valid, StreamFits, PayloadsOf;
    StartOfFrame(c, w);
    NumberIsIrrelevant(c, t, w, k, Place(RowsOf(c, w), 0), [], a);
    NumbersWrap(c, t, w, Place(RowsOf(c, w), 0), [], a, b);
  }

  lemma StreamUnfolds(c: TxConfig, t: Stream, wires: seq<WireFrame>, k: nat, b: nat)
    requires k < |wires| && AreWires(c, wires[k..]) && StreamFits(t)
    ensures Valid(c) && IsFrame(c, wires[k]) && AreWires(c, wires[k + 1..])
    ensures var sent := FramePackets(c, t, wires[k], 0, b);
      && HavePayloads(sent)
      && PayloadStream(c, t, wires[k..], b)
         == PayloadsOf(sent) + PayloadStream(c, t, wires[k + 1..], (b + |sent|) % W32)
  {
    hide FramePackets, HavePayloads, IsFrame, PayloadsOf, StreamFits, Valid;
    assert wires[k..][0] == wires[k] && wires[k..][1..] == wires[k + 1..];
    FrameHasPayloads(c, t, wires[k], b);
  }

  lemma EmptyStream(c: TxConfig, t: Stream, b: nat)
    requires AreWires(c, []) && StreamFits(t)
    ensures PayloadStream(c, t, [], b) == []
  {
  }

  lemma NothingToPost()
    ensures HavePayloads([]) && PayloadsOf([]) == []
  {
  }

  lemma {:induction false} PayloadsOfJoin(a: seq<Sent>, b: seq<Sent>)
    requires HavePayloads(a) && HavePayloads(b)
    ensures HavePayloads(a + b) && PayloadsOf(a + b) == PayloadsOf(a) + PayloadsOf(b)
  {
    hide RtpFits, Payload;
    if a == [] {
      assert a + b == b;
    } else {
      assert (a + b)[1..] == a[1..] + b;
      RestHasPayloads(a);
      PayloadsOfJoin(a[1..], b);
    }
  }

  // The packets of a first frame, and of those behind it.
  lemma FirstFrameIs(c: TxConfig, source: Source, t: Stream, f: TxFrame, rest: seq<TxFrame>,
                     prev: nat, rtpTime: nat, seqNum: nat)
    requires IsSource(source, c) && StreamFits(t) && prev < W32 && AreTxFrames([f] + rest)
    requires rtpTime == if c.isPsf && f.field == 1 then prev else f.rtpTime
    ensures AreTxFrames(rest) && rtpTime < W32 && Valid(c)
    ensures var all := WiresOf(c, source, [f] + rest, prev);
      && AreWires(c, all)
      && if IsAccepted(c, f)
         then var w, others := WireOf(c, source, f, rtpTime), WiresOf(c, source, rest, rtpTime);
              && IsFrame(c, w) && AreWires(c, others)
              && var sent := FramePackets(c, t, w, 0, seqNum);
                 && HavePayloads(sent)
                 && PayloadStream(c, t, all, seqNum)
                    == PayloadsOf(sent) + PayloadStream(c, t, others, (seqNum + |sent|) % W32)
         else all == WiresOf(c, source, rest, prev)
  {
    hide IsAccepted, IsSource, FramePackets, HavePayloads, PayloadsOf, StreamFits, Wire, IsFrame;
    RestOfFrames(f, rest);
    SourceIsValid(source, c);
    WiresAreFrames(c, source, [f] + rest, prev);
    assert ([f] + rest)[1..] == rest;
    if IsAccepted(c, f) {
      FrameIsWire(c, source, f, rtpTime);
      WiresAreFrames(c, source, rest, rtpTime);
      var w, others := WireOf(c, source, f, rtpTime), WiresOf(c, source, rest, rtpTime);
      assert ([w] + others)[0..] == [w] + others && ([w] + others)[1..] == others;
      StreamUnfolds(c, t, [w] + others, 0, seqNum);
    }
  }

  lemma RestOfFrames(f: TxFrame, rest: seq<TxFrame>)
    requires AreTxFrames([f] + rest)
    ensures f.rtpTime < W32 && AreTxFrames(rest)
  {
    assert ([f] + rest)[0] == f;
    forall i | 0 <= i < |rest|
      ensures rest[i].rtpTime < W32
    {
      assert ([f] + rest)[i + 1] == rest[i];
    }
  }

  lemma {:induction false} SizesStayAfter(n: Net, t: Stream, c: TxConfig, count: nat)
    requires CanSend(n, t, c)
    ensures CanSend(AfterPackets(n, count), t, c)
    ensures AfterPackets(n, count).alignment == n.alignment
    ensures MaxPacket(AfterPackets(n, count), c.payloadSize) == MaxPacket(n, c.payloadSize)
    ensures IsLike(AfterPackets(n, count), n)
    decreases count
  {
    NetStaysAlike(n, count);
    hide CanSend, MaxPacket, IsLike;
    if count > 0 {
      SizesStay(n, t, c);
      SizesStayAfter(AfterPacket(n), t, c, count - 1);
    }
  }

  lemma LikeIsTransitive(a: Net, b: Net, c: Net)
    requires IsLike(b, a) && IsLike(c, b)
    ensures IsLike(c, a)
  {
  }

  lemma IsAsIs(n: Net)
    requires IsNet(n)
    ensures IsLike(n, n) && ArePosted(n, []) && AllPost([]) && PostedBytes([]) == []
    ensures Payloads([]) == []
  {
  }

  // ---------------------------------------------------------------- The thread

  /**
   * What the thread meets each time it looks whether it is to stop: the stop, or else how far
   * the card reads, which frames the application writes, and what asking the driver for the
   * read offset leads to.
   */
  datatype Event =
    | Stop
    | Pass(taken: nat, written: seq<TxFrame>, status: Result, isOffsetWild: bool)

  predicate AreTxFrames(frames: seq<TxFrame>) {
    forall i | 0 <= i < |frames| :: frames[i].rtpTime < W32
  }

  predicate AreEvents(events: seq<Event>) {
    forall i | 0 <= i < |events| && events[i].Pass? :: AreTxFrames(events[i].written)
  }

  /** The card has read all it was told of, and the driver says so. */
  predicate IsQuick(e: Event, size: nat) {
    e.Pass? && e.taken >= size && e.status == Ok && !e.isOffsetWild
  }

  predicate AreQuick(events: seq<Event>, size: nat) {
    forall i | 0 <= i < |events| && events[i].Pass? :: IsQuick(events[i], size)
  }

  lemma QuickAt(events: seq<Event>, size: nat, i: nat)
    requires i < |events| && events[i].Pass?
    ensures AreQuick(events, size) ==> IsQuick(events[i], size)
    ensures AreEvents(events) ==> AreTxFrames(events[i].written)
  {
  }

  /** How often the thread looks and may go on. */
  function Passes(events: seq<Event>): (n: nat)
    ensures n <= |events| && (n < |events| ==> events[n].Stop?)
    ensures forall i | 0 <= i < n :: events[i].Pass?
  {
    if events == [] || events[0].Stop? then 0 else 1 + Passes(events[1..])
  }

  /** The frames that the application writes from an event on, up to the stop. */
  function Written(events: seq<Event>, from: nat): seq<TxFrame>
    requires from <= |events|
    decreases |events| - from
  {
    if from == |events| || events[from].Stop? then []
    else events[from].written + Written(events, from + 1)
  }

  lemma {:induction false} WrittenAreFrames(events: seq<Event>, from: nat)
    requires AreEvents(events) && from <= |events|
    ensures AreTxFrames(Written(events, from))
    decreases |events| - from
  {
    if from < |events| && events[from].Pass? {
      WrittenAreFrames(events, from + 1);
    }
  }

  /** How many of the frames can be sent. */
  function NumAccepted(c: TxConfig, frames: seq<TxFrame>): (n: nat)
    ensures n <= |frames|
  {
    if frames == [] then 0
    else
      var last := |frames| - 1;
      NumAccepted(c, frames[..last]) + if IsAccepted(c, frames[last]) then 1 else 0
  }

  lemma NoneAccepted(c: TxConfig)
    ensures NumAccepted(c, []) == 0
  {
  }

  lemma OneMoreAccepted(c: TxConfig, frames: seq<TxFrame>, f: TxFrame)
    ensures NumAccepted(c, frames + [f])
         == NumAccepted(c, frames) + if IsAccepted(c, f) then 1 else 0
  {
    assert (frames + [f])[..|frames|] == frames;
  }

  /** What sending a frame changes. */
  datatype Progress = Progress(net: Net, history: seq<Byte>, prevRtpTime: nat, seqNum: nat)

  /** What stays as it is. */
  datatype Setup = Setup(config: TxConfig, source: Source, stream: Stream)

  ghost predicate IsProgress(u: Setup, p: Progress) {
    && IsSource(u.source, u.config) && CanSend(p.net, u.stream, u.config)
    && p.prevRtpTime < W32 && p.seqNum < W32
  }

  /** The packets that frames are still to go out in. */
  ghost function Coming(u: Setup, p: Progress, frames: seq<TxFrame>): seq<seq<Byte>>
    requires IsProgress(u, p) && AreTxFrames(frames)
  {
    WiresAreFrames(u.config, u.source, frames, p.prevRtpTime);
    PayloadStream(u.config, u.stream, WiresOf(u.config, u.source, frames, p.prevRtpTime), p.seqNum)
  }

  /** From p to q the packets posted went out of frames, of which more are left. */
  ghost predicate HasSent(u: Setup, p: Progress, q: Progress, frames: seq<TxFrame>,
                          posted: seq<Posted>, left: seq<TxFrame>)
  {
    && IsProgress(u, p) && IsProgress(u, q) && AreTxFrames(frames) && AreTxFrames(left)
    && ArePosted(p.net, posted) && AllPost(posted) && IsLike(q.net, p.net)
    && q.history == p.history + PostedBytes(posted)
    && Coming(u, p, frames) == Payloads(posted) + Coming(u, q, left)
    && MaxPacket(q.net, u.config.payloadSize) == MaxPacket(p.net, u.config.payloadSize)
  }

  lemma NothingSent(u: Setup, p: Progress, frames: seq<TxFrame>)
    requires IsProgress(u, p) && AreTxFrames(frames)
    ensures HasSent(u, p, p, frames, [], frames)
  {
    hide Coming, IsSource, MaxPacket;
    IsAsIs(p.net);
  }

  /** What was sent before, and what was sent then. */
  lemma SentJoins(u: Setup, p: Progress, q: Progress, t: Progress, frames: seq<TxFrame>,
                  posted: seq<Posted>, left: seq<TxFrame>, more: seq<Posted>,
                  rest: seq<TxFrame>)
    requires HasSent(u, p, q, frames, posted, left) && HasSent(u, q, t, left, more, rest)
    ensures HasSent(u, p, t, frames, posted + more, rest)
  {
    hide Coming, IsProgress, AreTxFrames, ArePosted, AllPost, PostedBytes, Payloads, IsLike;
    hide MaxPacket;
    LikeIsTransitive(p.net, q.net, t.net);
    PostedLike(p.net, q.net, posted, more);
    PostedJoin(posted, more);
    PayloadsJoin(posted, more);
  }

  /** The thread between two passes: of all frames some are done, others left. */
  ghost predicate IsRunning(u: Setup, start: Progress, now: Progress, fits: bool,
                            all: seq<TxFrame>, posted: seq<Posted>, done: seq<TxFrame>,
                            unsent: seq<TxFrame>, left: seq<TxFrame>)
  {
    && all == done + unsent + left
    && if fits then |unsent| <= 1 && HasSent(u, start, now, all, posted, unsent + left)
       else now == start && done == []
  }

  lemma RunBegins(u: Setup, start: Progress, fits: bool, all: seq<TxFrame>)
    requires IsProgress(u, start) && AreTxFrames(all)
    ensures IsRunning(u, start, start, fits, all, [], [], [], all)
  {
    hide HasSent;
    NothingSent(u, start, all);
    assert [] + [] + all == all && [] + all == all;
  }

  // One frame is sent.
  lemma RunSends(u: Setup, start: Progress, was: Progress, now: Progress, all: seq<TxFrame>,
                 posted: seq<Posted>, done: seq<TxFrame>, frames: seq<TxFrame>, f: TxFrame,
                 more: seq<Posted>, left: seq<TxFrame>)
    requires IsRunning(u, start, was, true, all, posted, done, [], frames)
    requires frames == [f] + left && HasSent(u, was, now, frames, more, left)
    ensures IsRunning(u, start, now, true, all, posted + more, done + [f], [], left)
  {
    assert [] + frames == frames && [] + left == left;
    hide HasSent;
    SentJoins(u, start, was, now, all, posted, frames, more, left);
    Regrouped(done, [], f, left);
  }

  lemma Regrouped<T>(a: seq<T>, b: seq<T>, x: T, c: seq<T>)
    ensures b == [] ==> a + b + ([x] + c) == a + [x] + [] + c
    ensures a + b + ([x] + c) == a + (b + [x]) + c && b + ([x] + c) == b + [x] + c
  {
  }

  // One frame is not: the buffer is too small, or the thread stops.
  lemma RunFails(u: Setup, start: Progress, now: Progress, fits: bool, all: seq<TxFrame>,
                 posted: seq<Posted>, done: seq<TxFrame>, unsent: seq<TxFrame>,
                 frames: seq<TxFrame>, f: TxFrame, left: seq<TxFrame>)
    requires IsRunning(u, start, now, fits, all, posted, done, unsent, frames)
    requires frames == [f] + left && (fits ==> unsent == [])
    ensures IsRunning(u, start, now, fits, all, posted, done, unsent + [f], left)
  {
    hide HasSent;
    Regrouped(done, unsent, f, left);
  }

  lemma RunEnds(u: Setup, start: Progress, now: Progress, fits: bool, all: seq<TxFrame>,
                posted: seq<Posted>, done: seq<TxFrame>, unsent: seq<TxFrame>,
                left: seq<TxFrame>)
    requires IsRunning(u, start, now, fits, all, posted, done, unsent, left)
    ensures all == done + unsent + left
    ensures if fits then |unsent| <= 1 && HasSent(u, start, now, all, posted, unsent + left)
            else now == start && done == []
  {
    hide HasSent;
  }

  /** What the flush of a frame returns: the first failure of its packets' flushes, its own too. */
  ghost function FrameStatus(driver: nat -> Result, packets: nat): Result {
    if FirstFailure(driver, packets) != Ok || packets % FLUSH_EVERY_PACKETS == 0
    then FirstFailure(driver, packets) else driver(0)
  }

  /** A transmit FIFO of video, started. */
  class VideoTxFifo {
    const packetizer: Packetizer
    const stream: TxStream
    const writer: Writer
    var fifo: seq<TxFrame>
    var framesOk: nat

    constructor (packetizer: Packetizer, stream: TxStream, writer: Writer)
      ensures this.packetizer == packetizer && this.stream == stream && this.writer == writer
      ensures fifo == [] && framesOk == 0
    {
      this.packetizer, this.stream, this.writer := packetizer, stream, writer;
      fifo, framesOk := [], 0;
    }

    ghost function Now(): Progress
      reads packetizer, stream, writer
    {
      Progress(stream.net, writer.history, packetizer.prevRtpTime, stream.nextSequenceNumber)
    }

    function Fixed(): Setup {
      Setup(packetizer.config, packetizer.source, Stream(stream.payloadType, stream.ssrc))
    }

    ghost predicate Valid()
      reads this, packetizer, stream, writer, writer.data
    {
      && writer.Valid() && IsProgress(Fixed(), Now()) && AreTxFrames(fifo)
      && Unit(stream.net.alignment) % writer.word == 0
      && writer.unflushedPackets == 0 && writer.firstFlushFailure == Ok
    }

    // What happens between two looks at the stop.
    method Meet(event: Event)
      requires Valid() && event.Pass? && AreTxFrames(event.written)
      modifies this`fifo, writer`read, writer`readOffset
      ensures Valid() && Now() == old(Now()) && fifo == old(fifo) + event.written
      ensures IsQuick(event, writer.data.Length) && writer.told == |writer.history| ==>
                Room(writer.Shared()) == writer.data.Length - writer.word
    {
      hide IsProgress, SharedRing.Holds;
      var bytes := writer.CardTakes(event.taken);
      fifo := fifo + event.written;
    }

    // Waits for room for a frame, over the events from number i on.
    method WaitForRoom(pipeBytes: nat, events: seq<Event>, from: nat)
      returns (i: nat, hasRoom: bool)
      requires Valid() && from <= |events| && AreEvents(events)
      modifies this`fifo, writer`read, writer`readOffset
      ensures Valid() && Now() == old(Now()) && from <= i <= |events|
      ensures fifo + Written(events, i) == old(fifo) + Written(events, from)
      ensures |fifo| >= |old(fifo)|
      ensures if hasRoom then from < i && pipeBytes <= Room(writer.Shared())
              else i == |events| || events[i].Stop?
      ensures writer.told == |writer.history| && pipeBytes <= writer.data.Length - writer.word
              && from < |events| && IsQuick(events[from], writer.data.Length)
              ==> hasRoom && i == from + 1
    {
      i := from;
      hide IsProgress, Room, SharedRing.Holds;
      while i < |events| && events[i].Pass?
        invariant Valid() && Now() == old(Now()) && from <= i <= |events|
        invariant fifo + Written(events, i) == old(fifo) + Written(events, from)
        invariant |fifo| >= |old(fifo)|
        invariant i > from ==> !(writer.told == |writer.history|
                                 && pipeBytes <= writer.data.Length - writer.word
                                 && IsQuick(events[from], writer.data.Length))
        decreases |events| - i
      {
        Meet(events[i]);
        var reported := if events[i].isOffsetWild then writer.data.Length else writer.readOffset;
        var result, free := writer.GetFreeBytes(events[i].status, reported);
        i := i + 1;
        if result == Ok && free >= pipeBytes {
          return i, true;
        }
      }
      hasRoom := false;
    }

    /** The packets of one frame, which there is room for. */
    method SendFrame(f: TxFrame, driver: nat -> Result, card: nat -> nat, ghost rest: seq<TxFrame>)
      returns (ghost posted: seq<Posted>)
      requires Valid() && AreTxFrames([f] + rest)
      requires FrameBytes(stream.net, packetizer.config) <= Room(writer.Shared())
      modifies this`framesOk, packetizer, stream`net, stream`nextSequenceNumber
      modifies writer, writer.data, writer.wrapPacket
      ensures Valid() && HasSent(Fixed(), old(Now()), Now(), [f] + rest, posted, rest)
      ensures IsAccepted(packetizer.config, f) || posted == []
      ensures framesOk
           == old(framesOk) + if IsAccepted(packetizer.config, f)
                                 && FrameStatus(driver, |posted|) == Ok then 1 else 0
      ensures NeverFails(driver) && old(writer.IsTold()) ==>
        && writer.IsTold() && writer.told == |writer.history|
        && framesOk == old(framesOk) + if IsAccepted(packetizer.config, f) then 1 else 0
    {
      hide IsSource, MaxPacket, Room, IsIntact, IsAccepted, FramePackets, Datagrams;
      hide FrameBytes, PacketCount, PayloadStream, HavePayloads, Unit, IsFrame, StreamFits;
      hide ArePosted, AllPost, PostedBytes, AfterPackets, IsLike, Payloads, WiresOf;
      hide AreTxFrames, IsNet, IsAligned, WireOf, PayloadsOf, AreWires, Writer.Valid;
      ghost var c, source, t := packetizer.config, packetizer.source,
                                Stream(stream.payloadType, stream.ssrc);
      ghost var n, seqNum, prev := stream.net, stream.nextSequenceNumber, packetizer.prevRtpTime;
      ghost var rtpTime := packetizer.RtpTimeOf(f);
      FirstFrameIs(c, source, t, f, rest, prev, rtpTime, seqNum);
      RestOfFrames(f, rest);
      FrameBytesAreEnough(n, c, f.field);
      assert writer.HasFlushed(driver, 0);
      hide FirstFailure;
      var result := packetizer.Packetize(stream, f, writer, driver, card);
      if result == Ok {
        ghost var sent := FramePackets(c, t, WireOf(c, source, f, rtpTime), 0, seqNum);
        SizesStayAfter(n, t, c, |sent|);
        posted := FrameIsPosted(n, sent, packetizer.FirstTodNs(f, stream.outputDelayNs), 0,
                                packetizer.packetSpacingPs);
      } else {
        IsAsIs(n);
        posted := [];
      }
      var flushed := writer.Flush(driver(0));
      if flushed == Ok && result == Ok {
        framesOk := framesOk + 1;
      }
    }

    /** Whether the buffer can ever hold the packets of a frame. */
    predicate FitsInBuffer()
      requires VideoCut.Valid(packetizer.config)
      reads stream
    {
      FrameBytes(stream.net, packetizer.config) <= writer.data.Length - writer.word
    }

    // The oldest frame: it is sent when it fits the buffer and there is room before the stop.
    method SendFirst(events: seq<Event>, from: nat, driver: nat -> Result, card: nat -> nat)
      returns (f: TxFrame, i: nat, isSent: bool, ghost posted: seq<Posted>)
      requires Valid() && fifo != [] && from <= |events| && AreEvents(events)
      modifies this, packetizer, stream`net, stream`nextSequenceNumber
      modifies writer, writer.data, writer.wrapPacket
      ensures Valid() && VideoCut.Valid(packetizer.config) && from <= i <= |events|
      ensures old(fifo) + Written(events, from) == [f] + (fifo + Written(events, i))
      ensures 1 + |fifo| >= |old(fifo)|
      ensures isSent ==> from < i
      ensures isSent ==>
        HasSent(Fixed(), old(Now()), Now(), old(fifo) + Written(events, from), posted,
                fifo + Written(events, i))
      ensures !isSent ==> Now() == old(Now()) && framesOk == old(framesOk)
      ensures !isSent ==>
        && writer.IsTold() == old(writer.IsTold()) && writer.told == old(writer.told)
        && writer.history == old(writer.history)
      ensures if !old(FitsInBuffer()) then !isSent && i == from
              else isSent || i == |events| || events[i].Stop?
      ensures old(FitsInBuffer() && writer.told == |writer.history|)
              && from < |events| && IsQuick(events[from], writer.data.Length)
              ==> i == from + 1
      ensures FitsInBuffer() == old(FitsInBuffer())
      ensures isSent && NeverFails(driver) && old(writer.IsTold()) ==>
        && writer.IsTold() && writer.told == |writer.history|
        && framesOk == old(framesOk) + if IsAccepted(packetizer.config, f) then 1 else 0
    {
      hide HasSent, MaxPacket, Room, IsIntact, Unit, IsAligned, IsNet, StreamFits, Writer.Valid;
      hide PacketCount, NeverFails, IsAccepted, Writer.IsTold;
      f := fifo[0];
      ghost var others := fifo[1..];
      assert fifo == [f] + others;
      RestOfFrames(f, others);
      fifo := fifo[1..];
      var pipeBytes := FrameBytes(stream.net, packetizer.config);
      i, isSent, posted := from, false, [];
      if pipeBytes <= writer.data.Length - writer.word {
        var hasRoom;
        i, hasRoom := WaitForRoom(pipeBytes, events, from);
        if hasRoom && i < |events| && events[i].Pass? {
          ghost var rest := fifo + Written(events, i);
          FramesJoin(f, fifo, events, i);
          posted := SendFrame(f, driver, card, rest);
          SameFrameBytes(Fixed(), old(Now()), Now(), [f] + rest, posted, rest);
          assert old(fifo) + Written(events, from) == [f] + rest;
          isSent := true;
        }
      }
      assert [f] + (others + Written(events, from)) == [f] + others + Written(events, from);
    }

    /**
     * The thread, over the events it meets: the packets of the frames in the FIFO and of those
     * written meanwhile go into the pipe in the order of the frames, and none overwrites what
     * the card has yet to read. Stopped, it may leave one frame, taken from the FIFO, unsent.
     * With a buffer that cannot hold the packets of a frame, none is sent. When no flush fails
     * the card is told of every packet, and every frame that could be sent is counted; when
     * moreover the card keeps up, each pass sends a frame until the FIFO is empty.
     */
    method Thread(events: seq<Event>, driver: nat -> Result, card: nat -> nat)
      returns (ghost posted: seq<Posted>, ghost done: seq<TxFrame>, ghost unsent: seq<TxFrame>)
      requires Valid() && AreEvents(events)
      modifies this, packetizer, stream`net, stream`nextSequenceNumber
      modifies writer, writer.data, writer.wrapPacket
      ensures Valid() && VideoCut.Valid(packetizer.config)
      ensures old(fifo) + Written(events, 0) == done + unsent + fifo
      ensures if old(FitsInBuffer())
              then |unsent| <= 1
                   && HasSent(Fixed(), old(Now()), Now(), old(fifo) + Written(events, 0), posted,
                              unsent + fifo)
              else Now() == old(Now()) && done == []
      ensures NeverFails(driver) && old(writer.IsTold() && writer.told == |writer.history|) ==>
        && writer.told == |writer.history|
        && framesOk == old(framesOk) + NumAccepted(packetizer.config, done)
      ensures NeverFails(driver) && old(writer.IsTold() && writer.told == |writer.history|)
              && old(FitsInBuffer()) && AreQuick(events, writer.data.Length)
              ==> |done| >= |old(fifo)| || |done| + 1 >= Passes(events)
    {
      hide HasSent, MaxPacket, AreTxFrames, Room, FrameBytes, IsIntact, Unit, CanSend;
      hide Writer.Valid, IsProgress, IsAccepted, NeverFails, Writer.IsTold, NumAccepted, AreQuick;
      hide IsQuick, AreEvents;
      hide IsRunning, Now, Fixed;
      posted, done, unsent := [], [], [];
      ThreadBegins(events);
      ghost var u, start, fits, all := Fixed(), Now(), FitsInBuffer(), fifo + Written(events, 0);
      hide Valid, FitsInBuffer, VideoCut.Valid;
      NoneAccepted(packetizer.config);
      var i := 0;
      while i < |events| && events[i].Pass?
        invariant i <= |events| && Valid() && VideoCut.Valid(packetizer.config)
        invariant FitsInBuffer() == fits && Fixed() == u
        invariant IsRunning(u, start, Now(), fits, all, posted, done, unsent,
                            fifo + Written(events, i))
        invariant |done| + |unsent| + |fifo| >= |old(fifo)|
        invariant fits && i < |events| && events[i].Pass? ==> unsent == []
        invariant NeverFails(driver) && old(writer.IsTold() && writer.told == |writer.history|) ==>
          && writer.IsTold() && writer.told == |writer.history|
          && framesOk == old(framesOk) + NumAccepted(packetizer.config, done)
        invariant NeverFails(driver) && old(writer.IsTold() && writer.told == |writer.history|)
                  && fits && AreQuick(events, writer.data.Length)
                  ==> |done| >= |old(fifo)| || |done| + |unsent| == i
        decreases |events| - i, |fifo|
      {
        ghost var before, frames := Now(), fifo + Written(events, i);
        QuickAt(events, writer.data.Length, i);
        if fifo == [] {
          Meet(events[i]);
          i := i + 1;
          assert frames == fifo + Written(events, i);
          continue;
        }
        var f, isSent;
        ghost var more;
        f, i, isSent, more := SendFirst(events, i, driver, card);
        ghost var left := fifo + Written(events, i);
        if isSent {
          RunSends(u, start, before, Now(), all, posted, done, frames, f, more, left);
          OneMoreAccepted(packetizer.config, done, f);
          posted, done := posted + more, done + [f];
        } else {
          RunFails(u, start, before, fits, all, posted, done, unsent, frames, f, left);
          unsent := unsent + [f];
        }
      }
      assert fifo + Written(events, i) == fifo;
      RunEnds(u, start, Now(), fits, all, posted, done, unsent, fifo);
    }

    // What the thread starts from.
    lemma ThreadBegins(events: seq<Event>)
      requires Valid() && AreEvents(events)
      ensures VideoCut.Valid(packetizer.config) && IsProgress(Fixed(), Now())
      ensures var all := fifo + Written(events, 0);
        IsRunning(Fixed(), Now(), Now(), FitsInBuffer(), all, [], [], [], all)
    {
      WrittenAreFrames(events, 0);
      RunBegins(Fixed(), Now(), FitsInBuffer(), fifo + Written(events, 0));
    }
  }

  lemma FramesJoin(f: TxFrame, frames: seq<TxFrame>, events: seq<Event>, i: nat)
    requires f.rtpTime < W32 && AreTxFrames(frames) && AreEvents(events) && i <= |events|
    ensures AreTxFrames([f] + (frames + Written(events, i)))
  {
    WrittenAreFrames(events, i);
  }

  lemma SameFrameBytes(u: Setup, p: Progress, q: Progress, frames: seq<TxFrame>,
                       posted: seq<Posted>, left: seq<TxFrame>)
    requires HasSent(u, p, q, frames, posted, left)
    ensures VideoCut.Valid(u.config) && FrameBytes(q.net, u.config) == FrameBytes(p.net, u.config)
  {
    hide MaxPacket, Coming, PacketCount, Payloads, PostedBytes, CanSend;
  }
}
