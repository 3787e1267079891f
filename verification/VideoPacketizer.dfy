// Source/AvFifo/DtSt2110Video.c, transmission: the packets of a frame, one by one into a pipe.

module VideoPacketizer {
  import opened Arithmetic
  import opened Bytes
  import opened Headers
  import opened NetPackets
  import opened PipeWriter
  import opened SharedRing
  import opened TxStreams
  import opened VideoCut
  import opened VideoDatagrams
  import opened VideoPackets
  import opened VideoSafety
  import opened VideoStream
  import opened VideoTx
  import MediaTime

  const VIDEO_HEADERS: nat := 40

  /** Whatever the card is told of, it is told. */
  ghost predicate NeverFails(driver: nat -> Result) {
    forall i: nat :: driver(i) == Ok
  }

  // ---------------------------------------------------------------- What goes into the pipe

  /** The largest packet of a stream with payloads of so many bytes of rows. */
  function MaxPacket(n: Net, payloadSize: nat): nat {
    PacketSize(n, VIDEO_HEADERS - UDP_HEADER_SIZE + payloadSize)
  }

  // ---------------------------------------------------------------- One packet

  /** A network and a stream that packets can be written for. */
  predicate CanSend(n: Net, t: Stream, c: TxConfig) {
    && IsNet(n) && IsAligned(n.alignment) && StreamFits(t)
    && MaxPacket(n, c.payloadSize) <= MAX_PACKET
  }

  // The payload of a packet is the RTP header, the sequence number, the row headers and the
  // bytes.
  lemma PayloadParts(c: TxConfig, t: Stream, w: WireFrame, p: Place, from: nat, seqNum: nat,
                     n: nat)
    requires from <= |w.wire| && IsPlaceIn(c, w, p, w.wire[..from]) && p.rowsToDo > 0
    requires StreamFits(t) && CanCut(c, p, n, 0) && Cut(c, p, n, 0) == CutPacket(c, p)
    ensures from + BytesLeft(c, p, n, 0) <= |w.wire|
    ensures var x := PacketAt(c, t, w, 0, p, w.wire[..from], seqNum).packet;
      && 0 <= x.seqNum < W32 && RtpFits(RtpOf(x))
      && RtpOf(x) == Rtp(CutPacket(c, p).1.rowsToDo == 0, t.payloadType, seqNum % 0x10000,
                         w.timestamp, t.ssrc)
      && Payload(x) == RtpBytes(RtpOf(x)) + (Put16(x.seqNum / 0x10000)
                       + (HeadersLeft(c, RowsOf(c, w), w.field, p, n, 0)
                          + w.wire[from..from + BytesLeft(c, p, n, 0)]))
      && |x.data| == BytesLeft(c, p, n, 0) && x.seqNum == seqNum % W32
      && |HeadersLeft(c, RowsOf(c, w), w.field, p, n, 0)| == SRD_SIZE * n
  {
    hide CutPacket, SrdsBytes, RowHeaders, Cut, CanCut, Put16, RtpBytes, Sum, PacketAt, Payload;
    hide IsPlaceIn, RowsOf;
    var x := PacketAt(c, t, w, 0, p, w.wire[..from], seqNum).packet;
    PacketIs(c, t, w, p, from, seqNum);
    PlaceFacts(c, w, p, w.wire[..from]);
    SequenceParts(seqNum);
    PayloadIs(x);
  }

  lemma PacketIs(c: TxConfig, t: Stream, w: WireFrame, p: Place, from: nat, seqNum: nat)
    requires from <= |w.wire| && IsPlaceIn(c, w, p, w.wire[..from]) && p.rowsToDo > 0
    ensures var (segments, end) := CutPacket(c, p);
      && from + Sum(segments) <= |w.wire|
      && PacketAt(c, t, w, 0, p, w.wire[..from], seqNum).packet
         == Packet(end.rowsToDo == 0, t.payloadType, seqNum % W32, w.timestamp, t.ssrc,
                   RowHeaders(c, RowsOf(c, w), w.field, segments),
                   w.wire[from..from + Sum(segments)])
  {
    hide CutPacket, Sum, RowHeaders, IsPlaceIn, RowsOf;
    PacketHasRoom(c, w, p, w.wire[..from]);
  }

  lemma PacketHasRoom(c: TxConfig, w: WireFrame, p: Place, before: seq<Byte>)
    requires IsPlaceIn(c, w, p, before) && p.rowsToDo > 0
    ensures |before| + Sum(CutPacket(c, p).0) <= |w.wire|
  {
    hide CutPacket, Sum;
    PacketIsSound(c, p);
    EndIsPlace(c, CutPacket(c, p).1);
  }

  lemma SmallNumber(n: nat)
    requires n < W32
    ensures n % W32 == n
  {
  }

  lemma SequenceParts(seqNum: nat)
    ensures 0 <= seqNum % W32 < W32 && seqNum % W32 % 0x10000 == seqNum % 0x10000
    ensures seqNum % W32 / 0x10000 == seqNum / 0x10000 % 0x10000
  {
  }

  lemma PayloadIs(x: Packet)
    requires 0 <= x.seqNum < W32 && RtpFits(RtpOf(x))
    ensures Payload(x) == RtpBytes(RtpOf(x)) + (Put16(x.seqNum / 0x10000)
                                                + (SrdsBytes(x.srds) + x.data))
  {
    hide SrdsBytes, Put16, RtpBytes;
    assert Body(x) == Put16(x.seqNum / 0x10000) + (SrdsBytes(x.srds) + x.data);
  }

  // The stores that make a payload, put together.
  lemma PayloadIsStored(s0: seq<Byte>, s1: seq<Byte>, s2: seq<Byte>, s3: seq<Byte>, at: nat,
                        rtp: seq<Byte>, esn: seq<Byte>, rows: seq<Byte>)
    requires |rtp| == RTP_HEADER_SIZE && |esn| == ESN_SIZE
    requires Stored(s0, s1, at + RTP_HEADER_SIZE, esn)
    requires Stored(s1, s2, at + RTP_HEADER_SIZE + ESN_SIZE, rows)
    requires Stored(s2, s3, at, rtp)
    ensures Stored(s0, s3, at, rtp + (esn + rows))
  {
    hide Stored;
    StoredBehind(s0, s1, s2, at + RTP_HEADER_SIZE, esn, rows);
    StoredInFront(s0, s2, s3, at, rtp, esn + rows);
  }

  lemma PacketIsStored(s0: seq<Byte>, s3: seq<Byte>, s4: seq<Byte>, at: nat, front: nat,
                       payload: seq<Byte>, packet: seq<Byte>)
    requires Stored(s0, s3, at + front, payload) && Stored(s3, s4, at, packet)
    requires front + |payload| <= |packet|
    ensures Stored(s0, s4, at, packet)
  {
    hide Stored;
    StoredOver(s0, s3, s4, at, payload, front, packet);
  }

  lemma PayloadIsThere(s0: seq<Byte>, s3: seq<Byte>, at: nat, payload: seq<Byte>)
    requires Stored(s0, s3, at, payload)
    ensures |s0| == |s3| && at + |payload| <= |s3| && s3[at..at + |payload|] == payload
  {
  }

  // A payload is no larger than room is reserved for.
  lemma PacketFits(c: TxConfig, w: WireFrame, p: Place, from: nat, headers: nat)
    requires from <= |w.wire| && IsPlaceIn(c, w, p, w.wire[..from]) && p.rowsToDo > 0
    requires CanCut(c, p, headers, 0) && Cut(c, p, headers, 0) == CutPacket(c, p)
    ensures headers <= 3 && BytesLeft(c, p, headers, 0) <= c.payloadSize
  {
    hide CutPacket, Sum;
    PlaceFacts(c, w, p, w.wire[..from]);
    hide IsPlaceIn, IsPlace, Valid;
    PacketIsSound(c, p);
  }

  lemma PacketHasRoomInside(n: Net, size: nat, payloadSize: nat)
    requires IsAligned(n.alignment) && size <= VIDEO_HEADERS - UDP_HEADER_SIZE + payloadSize
    ensures NetHeaderSize(n) + size <= PacketSize(n, size) <= MaxPacket(n, payloadSize)
    ensures NetHeaderSize(n) + VIDEO_HEADERS - UDP_HEADER_SIZE + payloadSize
         <= MaxPacket(n, payloadSize)
  {
    hide PacketSize, NetHeaderSize, IsAligned;
    SizeHasRoom(n, size);
    SizeHasRoom(n, VIDEO_HEADERS - UDP_HEADER_SIZE + payloadSize);
    SizeGrows(n, size, VIDEO_HEADERS - UDP_HEADER_SIZE + payloadSize);
  }

  // A packet written in place is written in the room.
  lemma RoomIsWritten(r: Ring, data: seq<Byte>, bytes: seq<Byte>)
    requires IsIntact(r) && |bytes| <= Room(r)
    requires |r.history| % |r.data| + |bytes| <= |r.data|
    requires Stored(r.data, data, |r.history| % |r.data|, bytes)
    ensures IsIntact(r.(data := data)) && Room(r.(data := data)) == Room(r)
  {
    hide IsIntact, Stored, OnlyAhead;
    RingFacts(r);
    StoredAhead(r.data, data, |r.history|, bytes, |bytes|);
    WritingAhead(r, data, |bytes|);
  }

  lemma PacketIsInRoom(pre: seq<Byte>, room: seq<Byte>, at: nat, packet: seq<Byte>)
    requires Stored(pre, room, at, packet)
    ensures at + |packet| <= |room| && room[at..at + |packet|] == packet
    ensures at == 0 ==> room[..|packet|] == packet
  {
  }

  lemma WholeWords(n: Net, size: nat, word: nat)
    requires IsAligned(n.alignment) && word > 0 && Unit(n.alignment) % word == 0
    ensures PacketSize(n, size) % word == 0
  {
    hide PacketSize, IsAligned;
    SizeHasRoom(n, size);
    MultipleOfMultiple(PacketSize(n, size), Unit(n.alignment), word);
  }

  // ---------------------------------------------------------------- One packet after the other

  lemma {:induction false} PacketsHavePayloads(c: TxConfig, t: Stream, w: WireFrame, p: Place,
                                               before: seq<Byte>, seqNum: nat)
    requires IsPlaceIn(c, w, p, before) && StreamFits(t)
    ensures HavePayloads(PacketsFrom(c, t, w, 0, p, before, seqNum))
    decreases p.rowsToDo, c.rowSize - p.rowOffset
  {
    hide IsPlaceIn, PacketAt, CutPacket;
    PacketsUnfold(c, t, w, 0, p, before, seqNum);
    if p.rowsToDo > 0 {
      InsideHasPlace(c, w, p, before);
      var x, end := PacketAt(c, t, w, 0, p, before, seqNum), CutPacket(c, p).1;
      PacketHasPayload(c, t, w, p, before, seqNum);
      PacketsHavePayloads(c, t, w, end, before + x.packet.data, seqNum + 1);
      hide PacketsFrom;
    }
  }

  lemma PacketHasPayload(c: TxConfig, t: Stream, w: WireFrame, p: Place, before: seq<Byte>,
                         seqNum: nat)
    requires IsPlaceIn(c, w, p, before) && StreamFits(t) && p.rowsToDo > 0
    ensures var x := PacketAt(c, t, w, 0, p, before, seqNum).packet;
      0 <= x.seqNum < W32 && RtpFits(RtpOf(x))
  {
    hide CutPacket, RowHeaders, Sum;
  }

  /** The UDP payload of a packet that is full. */
  function MaxPayload(c: TxConfig): nat {
    VIDEO_HEADERS - UDP_HEADER_SIZE + c.payloadSize
  }

  lemma PayloadIsBelow(c: TxConfig, t: Stream, w: WireFrame, p: Place, before: seq<Byte>,
                       seqNum: nat)
    requires IsPlaceIn(c, w, p, before) && StreamFits(t) && p.rowsToDo > 0
    ensures PayloadFits(PacketAt(c, t, w, 0, p, before, seqNum).packet, MaxPayload(c))
  {
    hide PacketAt, CutPacket, IsPlaceIn, RtpFits, RtpOf, Sum;
    PacketHasPayload(c, t, w, p, before, seqNum);
    PlaceFacts(c, w, p, before);
    NextPlace(c, t, w, 0, p, before, seqNum);
    PacketTags(c, t, w, 0, p, before, seqNum);
    PacketIsSound(c, p);
  }

  lemma {:induction false} FrameIsBelow(c: TxConfig, t: Stream, w: WireFrame, p: Place,
                                        before: seq<Byte>, seqNum: nat)
    requires IsPlaceIn(c, w, p, before) && StreamFits(t)
    ensures var sent := PacketsFrom(c, t, w, 0, p, before, seqNum);
      HavePayloads(sent) && AreBelow(sent, MaxPayload(c))
    decreases p.rowsToDo, c.rowSize - p.rowOffset
  {
    hide IsPlaceIn, PacketAt, CutPacket, PacketsFrom, PayloadFits, MaxPayload;
    PacketsHavePayloads(c, t, w, p, before, seqNum);
    PacketsUnfold(c, t, w, 0, p, before, seqNum);
    if p.rowsToDo > 0 {
      InsideHasPlace(c, w, p, before);
      PayloadIsBelow(c, t, w, p, before, seqNum);
      var x, end := PacketAt(c, t, w, 0, p, before, seqNum), CutPacket(c, p).1;
      FrameIsBelow(c, t, w, end, before + x.packet.data, seqNum + 1);
    }
  }

  lemma FrameLeaves(c: TxConfig, t: Stream, n: Net, w: WireFrame, seqNum: nat, firstTodNs: int,
                    spacing: nat)
    requires CanSend(n, t, c) && IsFrame(c, w) && Valid(c)
    requires HavePayloads(FramePackets(c, t, w, 0, seqNum))
    ensures var sent := FramePackets(c, t, w, 0, seqNum);
      FitsNet(n, MaxPayload(c)) ==>
        LeaveInTurn(Datagrams(n, sent, firstTodNs, 0, spacing), n, |sent|, firstTodNs, 0, spacing)
  {
    hide PacketsFrom, LeaveInTurn, Datagrams, HavePayloads, FitsNet, AreBelow, RowsOf;
    if FitsNet(n, MaxPayload(c)) {
      StartOfFrame(c, w);
      FrameIsBelow(c, t, w, Place(RowsOf(c, w), 0), [], seqNum);
      DatagramsLeave(n, FramePackets(c, t, w, 0, seqNum), firstTodNs, 0, spacing, MaxPayload(c));
    }
  }

  // Only the lower 32 bits of a sequence number are sent.
  lemma SamePacket(c: TxConfig, t: Stream, w: WireFrame, p: Place, before: seq<Byte>, a: nat,
                   b: nat)
    requires IsPlaceIn(c, w, p, before) && p.rowsToDo > 0 && a % W32 == b % W32
    ensures PacketAt(c, t, w, 0, p, before, a) == PacketAt(c, t, w, 0, p, before, b)
  {
    hide CutPacket, RowHeaders, Sum, IsPlaceIn;
  }

  lemma NextSequence(a: nat, b: nat)
    requires a == b % W32
    ensures (a + 1) % W32 == (b + 1) % W32
  {
  }

  // A packet leaves the sizes of the others as they are.
  lemma SizesStay(n: Net, t: Stream, c: TxConfig)
    requires CanSend(n, t, c)
    ensures CanSend(AfterPacket(n), t, c) && AfterPacket(n).alignment == n.alignment
    ensures MaxPacket(AfterPacket(n), c.payloadSize) == MaxPacket(n, c.payloadSize)
  {
  }

  // The first of the packets of a frame that are left, and the others.
  lemma PacketsLeft(c: TxConfig, t: Stream, w: WireFrame, p: Place, from: nat, seqNum: nat,
                    n: Net, first: int, offset: nat, spacing: nat, next: nat, used: nat,
                    max: nat)
    requires from <= |w.wire| && IsPlaceIn(c, w, p, w.wire[..from]) && p.rowsToDo > 0
    requires StreamFits(t) && IsNet(n) && IsAligned(n.alignment) && next == seqNum % W32
    requires used == |PacketAt(c, t, w, 0, p, w.wire[..from], next).packet.data|
    ensures Valid(c) && IsPlace(c, p) && p.rowOffset % c.pgroupBytes == 0
    ensures from + used <= |w.wire|
    ensures IsPlaceIn(c, w, CutPacket(c, p).1, w.wire[..from + used])
    ensures IsFurther(p, CutPacket(c, p).1) && CutPacket(c, p).1.rowOffset < c.rowSize
    ensures var packets, rest := PacketsFrom(c, t, w, 0, p, w.wire[..from], seqNum),
              PacketsFrom(c, t, w, 0, CutPacket(c, p).1, w.wire[..from + used], seqNum + 1);
      var x := PacketAt(c, t, w, 0, p, w.wire[..from], next).packet;
      && HavePayloads(packets) && HavePayloads(rest) && |packets| == 1 + |rest|
      && |packets| * max == max + |rest| * max
      && 0 <= x.seqNum < W32 && RtpFits(RtpOf(x))
      && Datagrams(n, packets, first, offset, spacing)
         == PacketBytes(n, Payload(x), 0, TodOf(first, offset))
            + Datagrams(AfterPacket(n), rest, first, NextOffset(offset, spacing), spacing)
  {
    hide IsPlaceIn, PacketAt, CutPacket, PacketBytes, Payload, PacketsFrom, RtpFits, IsNet;
    hide HavePayloads, TodOf, NextOffset;
    var before := w.wire[..from];
    SmallModulo(seqNum);
    SamePacket(c, t, w, p, before, seqNum, next);
    PacketsHavePayloads(c, t, w, p, before, seqNum);
    PacketsUnfold(c, t, w, 0, p, before, seqNum);
    var x, end := PacketAt(c, t, w, 0, p, before, seqNum), CutPacket(c, p).1;
    assert before + x.packet.data == w.wire[..from + used] by {
      PlaceFacts(c, w, end, before + x.packet.data);
    }
    InsideHasPlace(c, w, end, w.wire[..from + used]);
    PacketsHavePayloads(c, t, w, end, w.wire[..from + used], seqNum + 1);
    var rest := PacketsFrom(c, t, w, 0, end, w.wire[..from + used], seqNum + 1);
    RestHasPayloads([x] + rest);
    assert ([x] + rest)[1..] == rest;
    OneMore(|rest|, max);
  }

  lemma SmallNext(n: nat)
    ensures n % W32 < W32
  {
  }

  lemma SmallModulo(n: nat)
    ensures n % W32 % W32 == n % W32
  {
  }

  lemma OneMore(n: nat, max: nat)
    ensures (1 + n) * max == max + n * max
  {
  }

  // ---------------------------------------------------------------- A frame

  /** A frame to transmit; its buffer may be larger than what is valid of it. */
  datatype TxFrame = TxFrame(data: seq<Byte>, numValidBytes: int, field: int, rtpTime: nat,
                             tod: MediaTime.TimeOfDay)

  /** The frame has the size of its field. */
  predicate IsAccepted(c: TxConfig, f: TxFrame) {
    f.numValidBytes == RowsInField(c, f.field) * c.rowSize && f.numValidBytes <= |f.data|
  }

  /** What goes out of a frame. */
  function WireOf(c: TxConfig, source: Source, f: TxFrame, rtpTime: nat): WireFrame
    requires IsAccepted(c, f)
  {
    WireFrame(Wire(source, f.data[..f.numValidBytes]), f.field != 0, rtpTime)
  }

  lemma FrameIsWire(c: TxConfig, source: Source, f: TxFrame, rtpTime: nat)
    requires IsSource(source, c) && IsAccepted(c, f) && rtpTime < W32
    ensures var w := WireOf(c, source, f, rtpTime);
      && IsFrame(c, w) && RowsOf(c, w) == RowsInField(c, f.field)
      && |w.wire| == f.numValidBytes && f.numValidBytes % c.pgroupBytes == 0
      && IsPlaceIn(c, w, Place(RowsOf(c, w), 0), w.wire[..0])
  {
    RowsInWholeGroups(c, RowsInField(c, f.field));
    WireSize(source, c, f.data[..f.numValidBytes]);
    hide Wire, RowsInField;
    var w := WireOf(c, source, f, rtpTime);
    FieldRows(c, f.field);
    StartOfFrame(c, w);
    assert w.wire[..0] == [];
    hide IsPlaceIn;
  }

  lemma FieldRows(c: TxConfig, field: int)
    ensures RowsInField(c, if field != 0 then 1 else 0) == RowsInField(c, field)
  {
  }

  lemma RowsInWholeGroups(c: TxConfig, rows: nat)
    requires Valid(c)
    ensures rows * c.rowSize % c.pgroupBytes == 0
  {
    var n := c.rowSize / c.pgroupBytes;
    assert rows * c.rowSize == c.pgroupBytes * (rows * n);
    MultipleOf(c.pgroupBytes, rows * n);
  }

  // As many packets as are counted.
  lemma CountIsPackets(c: TxConfig, t: Stream, w: WireFrame, seqNum: nat)
    requires Valid(c) && IsFrame(c, w)
    ensures |FramePackets(c, t, w, 0, seqNum)| == PacketCount(c, RowsOf(c, w))
  {
    hide RowsOf, PacketsFrom;
    StartOfFrame(c, w);
    CountFrom(c, t, w, Place(RowsOf(c, w), 0), [], seqNum);
  }

  lemma {:induction false} CountFrom(c: TxConfig, t: Stream, w: WireFrame, p: Place,
                                     before: seq<Byte>, seqNum: nat)
    requires IsPlaceIn(c, w, p, before)
    ensures Valid(c) && IsPlace(c, p) && p.rowOffset % c.pgroupBytes == 0
    ensures |PacketsFrom(c, t, w, 0, p, before, seqNum)| == |CutAll(c, p)|
    decreases p.rowsToDo, c.rowSize - p.rowOffset
  {
    hide IsPlaceIn, PacketAt, CutPacket, PacketsFrom;
    PlaceFacts(c, w, p, before);
    PacketsUnfold(c, t, w, 0, p, before, seqNum);
    if p.rowsToDo > 0 {
      var x, end := PacketAt(c, t, w, 0, p, before, seqNum), CutPacket(c, p).1;
      CountFrom(c, t, w, end, before + x.packet.data, seqNum + 1);
    }
  }

  // Wire bytes done, whole pixel groups at a place.
  lemma DoneInGroups(source: Source, c: TxConfig, w: WireFrame, p: Place, from: nat)
    requires IsSource(source, c) && from <= |w.wire| && IsPlaceIn(c, w, p, w.wire[..from])
    ensures from % c.pgroupBytes == 0
  {
    hide IsPlaceIn;
    SourceFacts(source, c);
    BeforeInGroups(c, w, p, w.wire[..from], c.pgroupBytes);
  }

  lemma NoPacketsLeft(c: TxConfig, t: Stream, w: WireFrame, p: Place, before: seq<Byte>,
                      seqNum: nat)
    requires IsPlaceIn(c, w, p, before) && p.rowsToDo == 0
    ensures PacketsFrom(c, t, w, 0, p, before, seqNum) == []
  {
  }

  lemma NoDatagrams(n: Net, firstTodNs: int, offset: nat, spacing: nat)
    requires IsNet(n) && IsAligned(n.alignment)
    ensures HavePayloads([]) && Datagrams(n, [], firstTodNs, offset, spacing) == []
  {
  }

  /** The packetizer of a stream's video; what Configure and Start set up does not change. */
  class Packetizer {
    const config: TxConfig
    const source: Source
    const trOffsetNs: int
    const packetSpacingPs: nat
    var prevRtpTime: nat

    constructor (config: TxConfig, source: Source, trOffsetNs: int, packetSpacingPs: nat)
      ensures this.config == config && this.source == source && this.trOffsetNs == trOffsetNs
      ensures this.packetSpacingPs == packetSpacingPs && prevRtpTime == 0
    {
      this.config, this.source, this.trOffsetNs := config, source, trOffsetNs;
      this.packetSpacingPs, prevRtpTime := packetSpacingPs, 0;
    }

    /** The payload of one packet, from the place in the frame that the walk is at. */
    method WritePayload(stream: TxStream, data: seq<Byte>, ghost w: WireFrame, start: Walk,
                        from: nat, rows: nat, field: bool, rtpTime: nat, room: array<Byte>,
                        rtp: nat)
      returns (next: Walk, used: nat, size: nat)
      requires IsSource(source, config) && w == WireFrame(Wire(source, data), field, rtpTime)
      requires StreamFits(Stream(stream.payloadType, stream.ssrc))
      requires stream.nextSequenceNumber < W32 && |data| % config.pgroupBytes == 0
      requires from <= |w.wire| && IsPlaceIn(config, w, PlaceOf(start), w.wire[..from])
      requires start.rowsToDo > 0 && from % config.pgroupBytes == 0
      requires rows == RowsOf(config, w)
      requires start.rowNum == (rows - start.rowsToDo) * RowStep(config)
      requires rtp + VIDEO_HEADERS - UDP_HEADER_SIZE + config.payloadSize <= room.Length
      modifies stream`nextSequenceNumber, room
      ensures var x := PacketAt(config, Stream(stream.payloadType, stream.ssrc), w, 0,
                                PlaceOf(start), w.wire[..from],
                                old(stream.nextSequenceNumber)).packet;
        && 0 <= x.seqNum < W32 && RtpFits(RtpOf(x))
        && Stored(old(room[..]), room[..], rtp, Payload(x))
        && size == |Payload(x)| <= VIDEO_HEADERS - UDP_HEADER_SIZE + config.payloadSize
        && used == |x.data|
      ensures stream.nextSequenceNumber == (old(stream.nextSequenceNumber) + 1) % W32
      ensures PlaceOf(next) == CutPacket(config, PlaceOf(start)).1 && next.rowsToDo <= rows
      ensures next.rowNum == (rows - next.rowsToDo) * RowStep(config)
    {
      hide IsPlaceIn, CanCut, Cut, CutPacket, PacketAt, Valid, IsPlace, Stored, Wire;
      hide RtpBytes, RtpFits, HeadersLeft, BytesLeft, Payload, Put16, RowStep, RowsOf;
      hide NumRowHeaders, RtpOf;
      ghost var t := Stream(stream.payloadType, stream.ssrc);
      ghost var p, seqNum := PlaceOf(start), stream.nextSequenceNumber;
      ghost var s0 := room[..];
      PlaceFacts(config, w, p, w.wire[..from]);
      OpenPacket(config, p);
      var numHeaders := NumRowHeaders(config, config.rowSize - start.rowOffset, start.rowsToDo);
      PacketFits(config, w, p, from, numHeaders);
      WireSize(source, config, data);
      PayloadParts(config, t, w, p, from, seqNum, numHeaders);
      ghost var rowBytes := HeadersLeft(config, rows, field, p, numHeaders, 0)
                            + w.wire[from..from + BytesLeft(config, p, numHeaders, 0)];
      ghost var x := PacketAt(config, t, w, 0, p, w.wire[..from], seqNum).packet;
      ghost var end := CutPacket(config, p).1;
      assert RtpOf(x) == Rtp(end.rowsToDo == 0, t.payloadType, seqNum % 0x10000, rtpTime, t.ssrc);
      assert x.seqNum == seqNum by { SmallNumber(seqNum); }
      var esn := Put16(stream.nextSequenceNumber / 0x10000);
      Store(room, rtp + RTP_HEADER_SIZE, esn);
      ghost var s1 := room[..];
      next, used := WriteSegments(config, source, rows, start, field, numHeaders, data, from,
                                  room, rtp + RTP_HEADER_SIZE + ESN_SIZE);
      ghost var s2 := room[..];
      var header := Rtp(next.rowsToDo == 0, stream.payloadType,
                        stream.nextSequenceNumber % 0x10000, rtpTime, stream.ssrc);
      stream.nextSequenceNumber := (stream.nextSequenceNumber + 1) % W32;
      Store(room, rtp, RtpBytes(header));
      PayloadIsStored(s0, s1, s2, room[..], rtp, RtpBytes(header), esn, rowBytes);
      size := RTP_HEADER_SIZE + ESN_SIZE + SRD_SIZE * numHeaders + used;
      assert PlaceOf(next) == end;
      assert header == RtpOf(x);
    }

    /** One packet at position at of the room reserved for it. */
    method WritePacket(stream: TxStream, data: seq<Byte>, ghost w: WireFrame, start: Walk,
                       from: nat, rows: nat, field: bool, rtpTime: nat, todNs: nat,
                       room: array<Byte>, at: nat)
      returns (next: Walk, used: nat, size: nat)
      requires IsSource(source, config) && w == WireFrame(Wire(source, data), field, rtpTime)
      requires CanSend(stream.net, Stream(stream.payloadType, stream.ssrc), config)
      requires stream.nextSequenceNumber < W32 && |data| % config.pgroupBytes == 0
      requires from <= |w.wire| && IsPlaceIn(config, w, PlaceOf(start), w.wire[..from])
      requires start.rowsToDo > 0 && from % config.pgroupBytes == 0
      requires rows == RowsOf(config, w)
      requires start.rowNum == (rows - start.rowsToDo) * RowStep(config)
      requires at + MaxPacket(stream.net, config.payloadSize) <= room.Length
      modifies stream`net, stream`nextSequenceNumber, room
      ensures var x := PacketAt(config, Stream(stream.payloadType, stream.ssrc), w, 0,
                                PlaceOf(start), w.wire[..from],
                                old(stream.nextSequenceNumber)).packet;
        && 0 <= x.seqNum < W32 && RtpFits(RtpOf(x)) && used == |x.data|
        && Stored(old(room[..]), room[..], at, PacketBytes(old(stream.net), Payload(x), 0, todNs))
        && size == PacketSize(old(stream.net), |Payload(x)|)
                <= MaxPacket(old(stream.net), config.payloadSize)
      ensures stream.net == AfterPacket(old(stream.net))
      ensures stream.nextSequenceNumber == (old(stream.nextSequenceNumber) + 1) % W32
      ensures PlaceOf(next) == CutPacket(config, PlaceOf(start)).1 && next.rowsToDo <= rows
      ensures next.rowNum == (rows - next.rowsToDo) * RowStep(config)
    {
      hide IsPlaceIn, CutPacket, PacketAt, IsPlace, Stored, Wire, RtpFits, Payload, IsSource;
      hide RowStep, RowsOf, RtpOf, PacketSize, NetHeaderSize, PacketBytes, IsNet, IsAligned;
      hide MaxPacket, StreamFits;
      ghost var n, s0 := stream.net, room[..];
      PacketHasRoomInside(n, 0, config.payloadSize);
      var rtp := at + NetHeaderSize(stream.net);
      next, used, size := WritePayload(stream, data, w, start, from, rows, field, rtpTime, room,
                                       rtp);
      PacketHasRoomInside(n, size, config.payloadSize);
      ghost var s3 := room[..];
      ghost var x := PacketAt(config, Stream(stream.payloadType, stream.ssrc), w, 0,
                              PlaceOf(start), w.wire[..from],
                              old(stream.nextSequenceNumber)).packet;
      PayloadIsThere(s0, s3, rtp, Payload(x));
      size := stream.WriteHeaders(room, at, size, 0, todNs);
      PacketIsStored(s0, s3, room[..], at, NetHeaderSize(n), Payload(x),
                     PacketBytes(n, Payload(x), 0, todNs));
    }

    /** One packet into the pipe. */
    method SendPacket(stream: TxStream, data: seq<Byte>, ghost w: WireFrame, start: Walk,
                      from: nat, rows: nat, field: bool, rtpTime: nat, todNs: nat,
                      writer: Writer, status: Result)
      returns (next: Walk, used: nat)
      requires IsSource(source, config) && w == WireFrame(Wire(source, data), field, rtpTime)
      requires CanSend(stream.net, Stream(stream.payloadType, stream.ssrc), config)
      requires stream.nextSequenceNumber < W32 && |data| % config.pgroupBytes == 0
      requires from <= |w.wire| && IsPlaceIn(config, w, PlaceOf(start), w.wire[..from])
      requires start.rowsToDo > 0 && from % config.pgroupBytes == 0
      requires rows == RowsOf(config, w)
      requires start.rowNum == (rows - start.rowsToDo) * RowStep(config)
      requires writer.Valid() && Unit(stream.net.alignment) % writer.word == 0
      requires MaxPacket(stream.net, config.payloadSize) <= Room(writer.Shared())
      modifies stream`net, stream`nextSequenceNumber, writer, writer.data, writer.wrapPacket
      ensures var x := PacketAt(config, Stream(stream.payloadType, stream.ssrc), w, 0,
                                PlaceOf(start), w.wire[..from],
                                old(stream.nextSequenceNumber)).packet;
        && 0 <= x.seqNum < W32 && RtpFits(RtpOf(x)) && used == |x.data|
        && writer.history == old(writer.history)
                             + PacketBytes(old(stream.net), Payload(x), 0, todNs)
      ensures writer.Valid() && writer.read == old(writer.read)
      ensures Room(writer.Shared())
           >= old(Room(writer.Shared())) - MaxPacket(old(stream.net), config.payloadSize)
      ensures stream.net == AfterPacket(old(stream.net))
      ensures stream.nextSequenceNumber == (old(stream.nextSequenceNumber) + 1) % W32
      ensures PlaceOf(next) == CutPacket(config, PlaceOf(start)).1 && next.rowsToDo <= rows
      ensures next.rowNum == (rows - next.rowsToDo) * RowStep(config)
      ensures status.Ok? && old(writer.IsTold()) ==> writer.IsTold()
      ensures (writer.unflushedPackets, writer.firstFlushFailure)
           == AfterCommit(old(writer.unflushedPackets), old(writer.firstFlushFailure), status)
    {
      hide IsPlaceIn, CutPacket, PacketAt, IsPlace, Stored, Wire, RtpFits, Payload, IsSource;
      hide RowStep, RowsOf, RtpOf, PacketSize, NetHeaderSize, PacketBytes, IsNet, IsAligned;
      hide MaxPacket, StreamFits, IsIntact, Room, Unit;
      ghost var n, was := stream.net, writer.Shared();
      RingFacts(was);
      var room, at := writer.ReserveRoom(MaxPacket(stream.net, config.payloadSize));
      ghost var before := room[..];
      var size;
      next, used, size := WritePacket(stream, data, w, start, from, rows, field, rtpTime, todNs,
                                      room, at);
      ghost var x := PacketAt(config, Stream(stream.payloadType, stream.ssrc), w, 0,
                              PlaceOf(start), w.wire[..from],
                              old(stream.nextSequenceNumber)).packet;
      ghost var packet := PacketBytes(n, Payload(x), 0, todNs);
      if room == writer.data {
        RoomIsWritten(was, writer.data[..], packet);
      }
      WholeWords(n, |Payload(x)|, writer.word);
      PacketIsInRoom(before, room[..], at, packet);
      writer.CommitPacket(size, status);
    }

    /**
     * The stream and the pipe in the middle of a frame: what is in the pipe and what is still
     * to go out make end, the last packet is number last, and there is room for all of them.
     */
    ghost predicate IsSending(stream: TxStream, writer: Writer, w: WireFrame, walk: Walk,
                              from: nat, firstTodNs: int, offset: nat, seqNum: nat, last: nat,
                              end: seq<Byte>, lastNet: Net)
      reads stream, writer, writer.data
    {
      var n, t := stream.net, Stream(stream.payloadType, stream.ssrc);
      && writer.Valid() && from <= |w.wire|
      && IsPlaceIn(config, w, PlaceOf(walk), w.wire[..from])
      && walk.rowNum == (RowsOf(config, w) - walk.rowsToDo) * RowStep(config)
      && CanSend(n, t, config) && Unit(n.alignment) % writer.word == 0
      && stream.nextSequenceNumber == seqNum % W32
      && var rest := PacketsFrom(config, t, w, 0, PlaceOf(walk), w.wire[..from], seqNum);
         && HavePayloads(rest) && seqNum + |rest| == last && AfterPackets(n, |rest|) == lastNet
         && |rest| * MaxPacket(n, config.payloadSize) <= Room(writer.Shared())
         && writer.history + Datagrams(n, rest, firstTodNs, offset, packetSpacingPs) == end
    }

    // The next packet of a frame, before which the card may read some.
    method SendNext(stream: TxStream, data: seq<Byte>, ghost w: WireFrame, walk: Walk, from: nat,
                    rows: nat, field: bool, rtpTime: nat, firstTodNs: int, offset: nat,
                    writer: Writer, status: Result, taken: nat, ghost seqNum: nat,
                    ghost last: nat, ghost end: seq<Byte>, ghost lastNet: Net)
      returns (next: Walk, used: nat)
      requires IsSource(source, config) && w == WireFrame(Wire(source, data), field, rtpTime)
      requires |data| % config.pgroupBytes == 0 && rows == RowsOf(config, w) && walk.rowsToDo > 0
      requires IsSending(stream, writer, w, walk, from, firstTodNs, offset, seqNum, last, end,
                         lastNet)
      modifies stream`net, stream`nextSequenceNumber, writer, writer.data, writer.wrapPacket
      ensures IsSending(stream, writer, w, next, from + used, firstTodNs,
                        NextOffset(offset, packetSpacingPs), seqNum + 1, last, end, lastNet)
      ensures IsFurther(PlaceOf(walk), PlaceOf(next)) && next.rowOffset < config.rowSize
      ensures status.Ok? && old(writer.IsTold()) ==> writer.IsTold()
      ensures (writer.unflushedPackets, writer.firstFlushFailure)
           == AfterCommit(old(writer.unflushedPackets), old(writer.firstFlushFailure), status)
    {
      hide IsPlaceIn, CutPacket, PacketAt, IsPlace, Wire, RtpFits, Payload, Valid, IsFurther;
      hide RowStep, RowsOf, RtpOf, PacketSize, PacketBytes, IsNet, IsAligned, PacketsFrom;
      hide MaxPacket, StreamFits, IsIntact, Room, Unit, IsFrame, TodOf, NextOffset, Datagrams;
      hide HavePayloads, Writer.Valid;
      ghost var p, n, number := PlaceOf(walk), stream.net, stream.nextSequenceNumber;
      ghost var t, max := Stream(stream.payloadType, stream.ssrc), MaxPacket(n, config.payloadSize);
      ghost var x := PacketAt(config, t, w, 0, p, w.wire[..from], number).packet;
      SmallNext(seqNum);
      PacketsLeft(config, t, w, p, from, seqNum, n, firstTodNs, offset, packetSpacingPs, number,
                  |x.data|, max);
      DoneInGroups(source, config, w, p, from);
      SizesStay(n, t, config);
      var bytes := writer.CardTakes(taken);
      ghost var rest := PacketsFrom(config, t, w, 0, CutPacket(config, p).1,
                                    w.wire[..from + |x.data|], seqNum + 1);
      assert 0 <= |rest| * max;
      ghost var history := writer.history;
      next, used := SendPacket(stream, data, w, walk, from, rows, field, rtpTime,
                               TodOf(firstTodNs, offset), writer, status);
      NextSequence(number, seqNum);
      ghost var packet := PacketBytes(n, Payload(x), 0, TodOf(firstTodNs, offset));
      ghost var others := Datagrams(stream.net, rest, firstTodNs,
                                    NextOffset(offset, packetSpacingPs), packetSpacingPs);
      assert history + (packet + others) == history + packet + others;
    }

    /** The packets of the rows of a frame. */
    method SendRows(stream: TxStream, data: seq<Byte>, ghost w: WireFrame, rows: nat, field: bool,
                    rtpTime: nat, firstTodNs: int, writer: Writer, driver: nat -> Result,
                    card: nat -> nat)
      requires IsSource(source, config) && w == WireFrame(Wire(source, data), field, rtpTime)
      requires CanSend(stream.net, Stream(stream.payloadType, stream.ssrc), config)
      requires stream.nextSequenceNumber < W32 && |data| % config.pgroupBytes == 0
      requires IsFrame(config, w) && rows == RowsOf(config, w)
      requires writer.Valid() && Unit(stream.net.alignment) % writer.word == 0
      requires |FramePackets(config, Stream(stream.payloadType, stream.ssrc), w, 0,
                             stream.nextSequenceNumber)|
               * MaxPacket(stream.net, config.payloadSize) <= Room(writer.Shared())
      modifies stream`net, stream`nextSequenceNumber, writer, writer.data, writer.wrapPacket
      ensures var sent := FramePackets(config, Stream(stream.payloadType, stream.ssrc), w, 0,
                                       old(stream.nextSequenceNumber));
        && HavePayloads(sent)
        && writer.history == old(writer.history)
             + Datagrams(old(stream.net), sent, firstTodNs, 0, packetSpacingPs)
        && stream.nextSequenceNumber == (old(stream.nextSequenceNumber) + |sent|) % W32
        && stream.net == AfterPackets(old(stream.net), |sent|)
      ensures writer.Valid()
      ensures NeverFails(driver) && old(writer.IsTold()) ==> writer.IsTold()
      ensures old(writer.HasFlushed(driver, 0)) ==>
                writer.HasFlushed(driver, |FramePackets(config, Stream(stream.payloadType, stream.ssrc),
                                                        w, 0, old(stream.nextSequenceNumber))|)
    {
      hide IsPlaceIn, IsPlace, Wire, Valid, RowStep, RowsOf, IsNet, IsAligned, PacketsFrom;
      hide MaxPacket, StreamFits, IsIntact, Room, Unit, IsFrame, NextOffset, Datagrams;
      hide HavePayloads, Writer.Valid;
      ghost var t, seqNum := Stream(stream.payloadType, stream.ssrc), stream.nextSequenceNumber;
      StartOfFrame(config, w);
      assert w.wire[..0] == [];
      PacketsHavePayloads(config, t, w, Place(rows, 0), w.wire[..0], seqNum);
      ghost var all := FramePackets(config, t, w, 0, seqNum);
      ghost var end := writer.history + Datagrams(stream.net, all, firstTodNs, 0, packetSpacingPs);
      ghost var lastNet := AfterPackets(stream.net, |all|);
      var walk := Walk(rows, 0, 0);
      var from: nat, offset: nat, count: nat := 0, 0, 0;
      while walk.rowsToDo != 0
        invariant IsSending(stream, writer, w, walk, from, firstTodNs, offset, seqNum + count,
                            seqNum + |all|, end, lastNet)
        invariant NeverFails(driver) && old(writer.IsTold()) ==> writer.IsTold()
        invariant old(writer.HasFlushed(driver, 0)) ==> writer.HasFlushed(driver, count)
        decreases walk.rowsToDo, config.rowSize - walk.rowOffset
      {
        var used: nat;
        walk, used := SendNext(stream, data, w, walk, from, rows, field, rtpTime, firstTodNs,
                               offset, writer, driver(count), card(count), seqNum + count,
                               seqNum + |all|, end, lastNet);
        FlushesGoOn(driver, count);
        from, offset, count := from + used, NextOffset(offset, packetSpacingPs), count + 1;
      }
      NoPacketsLeft(config, t, w, PlaceOf(walk), w.wire[..from], seqNum + count);
      NoDatagrams(stream.net, firstTodNs, offset, packetSpacingPs);
    }

    /** When the first packet of a frame goes out. */
    function FirstTodNs(f: TxFrame, outputDelayNs: int): int {
      MediaTime.ToNs(f.tod) + trOffsetNs - outputDelayNs
    }

    /** The timestamp a frame goes out with: that of the first field for PsF's second one. */
    function RtpTimeOf(f: TxFrame): nat
      reads this
    {
      if config.isPsf && f.field == 1 then prevRtpTime else f.rtpTime
    }

    /**
     * The packets of a frame, while the card reads on: card tells how far before each of them,
     * and driver what telling the card of more leads to. A reader of the pipe finds that they
     * leave one spacing after the other, the first at the frame's time with the offset in the
     * frame period and less the delay.
     */
    method Packetize(stream: TxStream, f: TxFrame, writer: Writer, driver: nat -> Result,
                     card: nat -> nat)
      returns (result: Result)
      requires IsSource(source, config) && f.rtpTime < W32 && prevRtpTime < W32
      requires CanSend(stream.net, Stream(stream.payloadType, stream.ssrc), config)
      requires stream.nextSequenceNumber < W32
      requires writer.Valid() && Unit(stream.net.alignment) % writer.word == 0
      requires IsAccepted(config, f) ==>
                 PacketCount(config, RowsInField(config, f.field))
                 * MaxPacket(stream.net, config.payloadSize) <= Room(writer.Shared())
      modifies this, stream`net, stream`nextSequenceNumber, writer, writer.data, writer.wrapPacket
      ensures result == if IsAccepted(config, f) then Ok else InvalidFormat
      ensures writer.Valid() && (NeverFails(driver) && old(writer.IsTold()) ==> writer.IsTold())
      ensures result == InvalidFormat ==>
                && writer.history == old(writer.history) && stream.net == old(stream.net)
                && stream.nextSequenceNumber == old(stream.nextSequenceNumber)
                && prevRtpTime == old(prevRtpTime)
                && (old(writer.HasFlushed(driver, 0)) ==> writer.HasFlushed(driver, 0))
      ensures result == Ok ==>
        var w, t := WireOf(config, source, f, old(RtpTimeOf(f))),
                    Stream(stream.payloadType, stream.ssrc);
        && IsFrame(config, w)
        && var sent := FramePackets(config, t, w, 0, old(stream.nextSequenceNumber));
           && HavePayloads(sent)
           && writer.history == old(writer.history)
                + Datagrams(old(stream.net), sent, FirstTodNs(f, stream.outputDelayNs), 0,
                            packetSpacingPs)
           && stream.nextSequenceNumber == (old(stream.nextSequenceNumber) + |sent|) % W32
           && stream.net == AfterPackets(old(stream.net), |sent|)
           && prevRtpTime == old(RtpTimeOf(f))
           && (old(writer.HasFlushed(driver, 0)) ==> writer.HasFlushed(driver, |sent|))
           && (FitsNet(old(stream.net), MaxPayload(config)) ==>
                 LeaveInTurn(writer.history[|old(writer.history)|..], old(stream.net), |sent|,
                             f.tod.seconds * 1_000_000_000 + f.tod.nanoseconds + trOffsetNs
                             - stream.outputDelayNs, 0, packetSpacingPs))
    {
      hide Wire, CanSend, MaxPacket, Room, FramePackets, Datagrams, HavePayloads, Unit, IsFrame;
      hide IsSource, RowsInField, RowsOf, IsIntact, PacketCount, LeaveInTurn, FitsNet, MaxPayload;
      ghost var n, seqNum := stream.net, stream.nextSequenceNumber;
      if f.numValidBytes != RowsInField(config, f.field) * config.rowSize
         || f.numValidBytes > |f.data| {
        return InvalidFormat;
      }
      var rows := RowsInField(config, f.field);
      var rtpTime := f.rtpTime;
      if config.isPsf && f.field == 1 {
        rtpTime := prevRtpTime;
      } else {
        prevRtpTime := rtpTime;
      }
      FrameIsWire(config, source, f, rtpTime);
      CountIsPackets(config, Stream(stream.payloadType, stream.ssrc),
                     WireOf(config, source, f, rtpTime), stream.nextSequenceNumber);
      SendRows(stream, f.data[..f.numValidBytes], WireOf(config, source, f, rtpTime), rows,
               f.field != 0, rtpTime, FirstTodNs(f, stream.outputDelayNs), writer, driver, card);
      FrameLeaves(config, Stream(stream.payloadType, stream.ssrc), n,
                  WireOf(config, source, f, rtpTime), seqNum,
                  FirstTodNs(f, stream.outputDelayNs), packetSpacingPs);
      result := Ok;
    }
  }
}
