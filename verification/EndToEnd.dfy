// From a transmit FIFO's frames to a parser's, through the bytes of the pipes.

module EndToEnd {
  import opened Arithmetic
  import opened Bytes
  import opened EthIp
  import opened Headers
  import opened NetPackets
  import opened Transmitter
  import opened VideoCut
  import opened VideoPacketizer
  import opened VideoPackets
  import opened VideoParser
  import opened VideoSafety
  import opened VideoStream
  import PipeReader
  import VideoDatagrams
  import FramePool
  import RxFifo
  import RxFrames
  import VideoLossless
  import VideoReceiver
  import VideoRoundTrip

  // ---------------------------------------------------------------- Packets found again

  /** The packets that were posted, each as its bytes. */
  function PacketList(posted: seq<Posted>): (r: seq<seq<Byte>>)
    requires AllPost(posted)
    ensures |r| == |posted|
  {
    if posted == [] then []
    else
      assert CanPost(posted[0]);
      [PacketBytes(posted[0].net, posted[0].payload, 0, posted[0].todNs)] + PacketList(posted[1..])
  }

  /** A packet that a pipe and its header have room for. */
  predicate IsSmall(p: Posted) {
    && FitsNet(p.net, |p.payload|)
    && PacketSize(p.net, |p.payload|) <= SharedRing.MAX_PACKET
  }

  predicate AreSmall(posted: seq<Posted>) {
    forall i | 0 <= i < |posted| :: IsSmall(posted[i])
  }

  // The reader finds a packet that is at the start of what it reads.
  lemma PacketIsFound(p: Posted, rest: seq<Byte>)
    requires CanPost(p) && IsSmall(p)
    ensures var s := PacketBytes(p.net, p.payload, 0, p.todNs);
      && PipeReader.HasPacket(s + rest) && PipeReader.SizeOf(s + rest) == |s|
      && (s + rest)[..|s|] == s && (s + rest)[|s|..] == rest
  {
    hide PacketBytes, PipeReader.HasPacket, PipeReader.SizeOf;
    VideoDatagrams.PacketIsFound(p.net, p.payload, p.todNs, rest);
  }

  /** The reader finds the packets posted, and nothing is left. */
  lemma {:induction false} PostedAreFound(posted: seq<Posted>)
    requires AllPost(posted) && AreSmall(posted)
    ensures PipeReader.Packets(PostedBytes(posted)) == PacketList(posted)
    ensures PipeReader.Rest(PostedBytes(posted)) == []
  {
    hide PacketBytes, CanPost, IsSmall, PipeReader.HasPacket, PipeReader.SizeOf;
    if posted == [] {
      VideoDatagrams.NothingIsFound();
    } else {
      assert CanPost(posted[0]) && IsSmall(posted[0]);
      PacketIsFound(posted[0], PostedBytes(posted[1..]));
      PipeReader.PacketsUnfold(PostedBytes(posted));
      PostedAreFound(posted[1..]);
    }
  }

  // ---------------------------------------------------------------- What the parser gets

  /** When packets arrive: at the times they went out, as their headers hold them. */
  function Tods(posted: seq<Posted>): (r: seq<nat>)
    ensures |r| == |posted|
  {
    if posted == [] then [] else [HeldTod(posted[0].todNs)] + Tods(posted[1..])
  }

  /** The parser gets the packets sent. */
  lemma {:induction false} PostedArrive(posted: seq<Posted>, sent: seq<Sent>)
    requires AllPost(posted) && AreSmall(posted) && HavePayloads(sent)
    requires Payloads(posted) == PayloadsOf(sent)
    ensures |posted| == |sent|
    ensures VideoReceiver.ArrivalsOf(PacketList(posted))
         == VideoRoundTrip.InSequence(sent, Tods(posted))
    decreases |posted|
  {
    hide PacketBytes, HavePayloads, Payload, Parse, HeldTod;
    assert |Payloads(posted)| == |PayloadsOf(sent)|;
    PayloadCount(posted);
    if posted != [] {
      assert CanPost(posted[0]) && IsSmall(posted[0]);
      hide CanPost;
      RestHasPayloads(sent);
      FirstPayload(posted, sent);
      PacketRoundTrip(posted[0].net, posted[0].payload, 0, posted[0].todNs);
      hide IsSmall, RtpFits, RtpOf;
      PostedArrive(posted[1..], sent[1..]);
      var first := PacketBytes(posted[0].net, posted[0].payload, 0, posted[0].todNs);
      assert ([first] + PacketList(posted[1..]))[1..] == PacketList(posted[1..]);
      assert Tods(posted)[1..] == Tods(posted[1..]);
    }
  }

  lemma {:induction false} PayloadCount(posted: seq<Posted>)
    ensures |Payloads(posted)| == |posted|
  {
    if posted != [] {
      PayloadCount(posted[1..]);
    }
  }

  lemma FirstPayload(posted: seq<Posted>, sent: seq<Sent>)
    requires posted != [] && sent != [] && HavePayloads(sent) && HavePayloads(sent[1..])
    requires 0 <= sent[0].packet.seqNum < W32 && RtpFits(RtpOf(sent[0].packet))
    requires Payloads(posted) == PayloadsOf(sent)
    ensures posted[0].payload == Payload(sent[0].packet)
    ensures Payloads(posted[1..]) == PayloadsOf(sent[1..])
  {
    hide HavePayloads, Payload, RtpFits, RtpOf;
    var a, b := Payloads(posted[1..]), PayloadsOf(sent[1..]);
    assert Payloads(posted)[0] == posted[0].payload && Payloads(posted)[1..] == a;
    assert PayloadsOf(sent)[0] == Payload(sent[0].packet) && PayloadsOf(sent)[1..] == b;
  }

  // ---------------------------------------------------------------- Sizes

  predicate AreBelow(payloads: seq<seq<Byte>>, max: nat) {
    forall i | 0 <= i < |payloads| :: |payloads[i]| <= max
  }

  lemma PayloadIsSmall(c: TxConfig, t: Stream, w: WireFrame, k: nat, p: Place, before: seq<Byte>,
                       seqNum: nat)
    requires IsPlaceIn(c, w, p, before) && StreamFits(t) && p.rowsToDo > 0
    ensures var x := PacketAt(c, t, w, k, p, before, seqNum).packet;
      0 <= x.seqNum < W32 && RtpFits(RtpOf(x)) && |Payload(x)| <= MaxPayload(c)
  {
    hide PacketAt, IsPlaceIn, RtpFits, RtpOf;
    SamePacketOfFrame(c, t, w, k, p, before, seqNum);
    PayloadIsBelow(c, t, w, p, before, seqNum);
  }

  lemma {:induction false} PayloadsAreBelow(c: TxConfig, t: Stream, w: WireFrame, k: nat,
                                            p: Place, before: seq<Byte>, seqNum: nat)
    requires IsPlaceIn(c, w, p, before) && StreamFits(t)
    ensures var sent := PacketsFrom(c, t, w, k, p, before, seqNum);
      HavePayloads(sent) && AreBelow(PayloadsOf(sent), MaxPayload(c))
    decreases p.rowsToDo, c.rowSize - p.rowOffset
  {
    hide IsPlaceIn, PacketAt, CutPacket, PacketsFrom, Payload, MaxPayload, RtpFits, RtpOf;
    NumberIsIrrelevant(c, t, w, k, p, before, seqNum);
    PacketsUnfold(c, t, w, k, p, before, seqNum);
    if p.rowsToDo > 0 {
      InsideHasPlace(c, w, p, before);
      PayloadIsSmall(c, t, w, k, p, before, seqNum);
      var x, end := PacketAt(c, t, w, k, p, before, seqNum), CutPacket(c, p).1;
      PayloadsAreBelow(c, t, w, k, end, before + x.packet.data, seqNum + 1);
      var rest := PacketsFrom(c, t, w, k, end, before + x.packet.data, seqNum + 1);
      assert ([x] + rest)[1..] == rest;
    }
  }

  lemma {:induction false} AllAreBelow(c: TxConfig, t: Stream, frames: seq<WireFrame>, k: nat,
                                       seqNum: nat)
    requires AreFrames(c, frames) && StreamFits(t) && k <= |frames|
    ensures var sent := AllPackets(c, t, frames, k, seqNum);
      HavePayloads(sent) && AreBelow(PayloadsOf(sent), MaxPayload(c))
    decreases |frames| - k
  {
    hide PacketsFrom, HavePayloads, AllPackets, AreFrames, StreamFits, RowsOf, IsFrame, Valid;
    if k == |frames| {
      NoFramesLeft(c, t, frames, seqNum);
      NothingToPost();
    } else {
      FrameHasPackets(c, frames, k);
      StartOfFrame(c, frames[k]);
      PayloadsAreBelow(c, t, frames[k], k, Place(RowsOf(c, frames[k]), 0), [], seqNum);
      var first := FramePackets(c, t, frames[k], k, seqNum);
      AllAreBelow(c, t, frames, k + 1, seqNum + |first|);
      PayloadsOfJoin(first, AllPackets(c, t, frames, k + 1, seqNum + |first|));
      AllUnfold(c, t, frames, k, seqNum);
    }
  }

  /** A network whose packets a pipe and its headers have room for. */
  predicate IsRoomy(n: Net, c: TxConfig) {
    FitsNet(n, MaxPayload(c)) && MaxPacket(n, c.payloadSize) <= SharedRing.MAX_PACKET
  }

  lemma LikeIsRoomy(n: Net, p: Posted, c: TxConfig)
    requires IsRoomy(n, c) && IsLike(p.net, n) && |p.payload| <= MaxPayload(c)
    ensures IsSmall(p)
  {
    SizeGrows(n, |p.payload|, MaxPayload(c));
    assert PacketSize(p.net, |p.payload|) == PacketSize(n, |p.payload|);
  }

  lemma {:induction false} PostedAreSmall(n: Net, posted: seq<Posted>, c: TxConfig)
    requires IsRoomy(n, c) && ArePosted(n, posted)
    requires AreBelow(Payloads(posted), MaxPayload(c))
    ensures AreSmall(posted) && AllPost(posted)
  {
    hide IsRoomy, IsLike, CanPost, IsSmall, MaxPayload;
    forall i | 0 <= i < |posted|
      ensures IsSmall(posted[i])
    {
      PayloadAt(posted, i);
      LikeIsRoomy(n, posted[i], c);
    }
  }

  lemma {:induction false} PayloadAt(posted: seq<Posted>, i: nat)
    requires i < |posted|
    ensures i < |Payloads(posted)| && Payloads(posted)[i] == posted[i].payload
  {
    if i > 0 {
      PayloadAt(posted[1..], i - 1);
    }
  }

  // ---------------------------------------------------------------- End to end

  /**
   * End to end: the bytes that packets of frames, or of fields of alternating parity, are in
   * a pipe, read by a reader and parsed by a fresh parser, give every frame but the first
   * with the bytes, the field, the rows and the timestamp it was sent with, and no error.
   */
  lemma FramesArrive(format: Format, c: TxConfig, t: Stream, n: Net, wires: seq<WireFrame>,
                     seqNum: nat, posted: seq<Posted>, envs: seq<Env>)
    requires VideoRoundTrip.IsFit(format, c, t) && VideoLossless.IsSource(c, wires)
    requires wires != [] && AreFrames(c, wires) && AreWires(c, wires) && IsRoomy(n, c)
    requires ArePosted(n, posted) && AllPost(posted)
    requires Payloads(posted) == PayloadStream(c, t, wires, seqNum)
    requires |envs| == |PipeReader.Packets(PostedBytes(posted))| && VideoRoundTrip.AllWell(envs)
    ensures var s := Run(format, INITIAL,
                         VideoReceiver.ArrivalsOf(PipeReader.Packets(PostedBytes(posted))), envs);
      && VideoRoundTrip.AreReceived(format, c, wires, s.delivered, |wires|)
      && s.stats == VideoLossless.NO_ERRORS.(framesOk := |wires| - 1)
  {
    hide AllPackets, Run, VideoRoundTrip.InSequence, HavePayloads, VideoRoundTrip.AreReceived;
    hide VideoLossless.IsSource, AreFrames, IsRoomy, ArePosted, AllPost, PayloadStream, AreWires;
    hide PostedBytes, PacketList, Payloads, PayloadsOf, AreBelow, AreSmall, VideoReceiver.ArrivalsOf;
    hide PipeReader.Packets, FitsHeaders, FormatFits, StreamFits, VideoLossless.SizeFits;
    assert wires[0..] == wires;
    StreamIsAllPackets(c, t, wires, 0, seqNum, seqNum);
    var sent := AllPackets(c, t, wires, 0, seqNum);
    AllAreBelow(c, t, wires, 0, seqNum);
    PostedAreSmall(n, posted, c);
    PostedAreFound(posted);
    PostedArrive(posted, sent);
    VideoRoundTrip.RoundTrip(format, c, t, wires, seqNum, Tods(posted), envs);
  }

  /** Every frame has the size of its field. */
  predicate AllAccepted(c: TxConfig, frames: seq<TxFrame>) {
    forall i | 0 <= i < |frames| :: IsAccepted(c, frames[i])
  }

  /** The timestamp of a frame; a second PsF field has that of the field before it. */
  function TimeSent(c: TxConfig, frames: seq<TxFrame>, prev: nat, i: nat): nat
    requires i < |frames|
  {
    if !c.isPsf || frames[i].field != 1 then frames[i].rtpTime
    else if i == 0 then prev else TimeSent(c, frames, prev, i - 1)
  }

  // The same, told from the first frame on.
  lemma {:induction false} TimeSentLater(c: TxConfig, frames: seq<TxFrame>, prev: nat, i: nat)
    requires 0 < i < |frames|
    ensures TimeSent(c, frames, prev, i)
         == TimeSent(c, frames[1..], TimeSent(c, frames, prev, 0), i - 1)
  {
    if i > 1 {
      TimeSentLater(c, frames, prev, i - 1);
    }
  }

  // What goes out of a frame, in frames that are all accepted.
  lemma {:induction false} WireAt(c: TxConfig, source: Source, frames: seq<TxFrame>, prev: nat,
                                  i: nat)
    requires AllAccepted(c, frames) && i < |frames|
    ensures var wires := WiresOf(c, source, frames, prev);
      && |wires| == |frames|
      && wires[i].wire == Wire(source, frames[i].data[..frames[i].numValidBytes])
      && wires[i].field == (frames[i].field != 0)
      && wires[i].timestamp == TimeSent(c, frames, prev, i)
    decreases |frames|
  {
    hide IsAccepted, Wire;
    assert IsAccepted(c, frames[0]);
    var rtpTime := if c.isPsf && frames[0].field == 1 then prev else frames[0].rtpTime;
    if |frames| == 1 {
      assert WiresOf(c, source, frames[1..], rtpTime) == [];
    } else {
      assert AllAccepted(c, frames[1..]) by {
        RestIsAccepted(c, frames);
      }
      WireAt(c, source, frames[1..], rtpTime, if i == 0 then 0 else i - 1);
      if i > 0 {
        TimeSentLater(c, frames, prev, i);
      }
    }
  }

  lemma RestIsAccepted(c: TxConfig, frames: seq<TxFrame>)
    requires AllAccepted(c, frames) && frames != []
    ensures AllAccepted(c, frames[1..])
  {
    hide IsAccepted;
  }

  /** A delivered frame is the frame that was sent, at a time. */
  predicate IsSameFrame(c: TxConfig, sent: TxFrame, rtpTime: nat, got: Frame)
    requires 0 <= sent.numValidBytes <= |sent.data|
  {
    && got.numValid == sent.numValidBytes && sent.data[..sent.numValidBytes] <= got.data
    && got.field == (if sent.field != 0 then 1 else 0)
    && got.rtpTime == rtpTime
    && got.numRows == if VideoLossless.IsFielded(c) then RowsInField(c, sent.field)
                      else VideoLossless.LastRow(c, c.numRows)
  }

  /** The frames delivered are those sent, but for the first. */
  predicate CameOut(c: TxConfig, frames: seq<TxFrame>, prev: nat, delivered: seq<Frame>) {
    && |delivered| == |frames| - 1
    && forall i | 0 < i < |frames| ::
         && 0 <= frames[i].numValidBytes <= |frames[i].data|
         && IsSameFrame(c, frames[i], TimeSent(c, frames, prev, i), delivered[i - 1])
  }

  /** Frames that a FIFO can send so that the other end learns their size. */
  ghost predicate AreSendable(u: Setup, p: Progress, frames: seq<TxFrame>) {
    var wires := WiresOf(u.config, u.source, frames, p.prevRtpTime);
    && AllAccepted(u.config, frames) && IsRoomy(p.net, u.config)
    && VideoRoundTrip.IsFit(VideoRoundTrip.SameFormat(u.source), u.config, u.stream)
    && VideoLossless.IsSource(u.config, wires)
  }

  /** A receive FIFO that took up a stream at its start, and has read all of it. */
  ghost predicate HasRead(f: RxFifo.VideoRxFifo, stream: seq<Byte>)
    reads f, f.reader, f.reader.data, f.rx, f.rx.sink, f.rx.sink.pool, f.rx.sink.fifo
    reads f.rx.sink.parts, f.rx.partial
    reads if f.rx.partial == null then {} else {f.rx.partial.data, f.rx.partial.info}
  {
    && f.Valid() && f.reader.base == 0 && f.reader.before == []
    && f.reader.history == stream && f.reader.read == |stream|
  }

  /** What the packets of a stream parse to. */
  ghost predicate AreParsed(format: Format, stream: seq<Byte>, envs: seq<Env>,
                            delivered: seq<Frame>) {
    && |envs| == |PipeReader.Packets(stream)|
    && delivered == Run(format, INITIAL,
                        VideoReceiver.ArrivalsOf(PipeReader.Packets(stream)), envs).delivered
  }

  /** What such a FIFO has delivered is what the stream's packets parse to. */
  lemma DeliveredAsParsed(f: RxFifo.VideoRxFifo, stream: seq<Byte>)
    requires HasRead(f, stream)
    ensures AreParsed(f.rx.format, stream, f.envs, f.rx.sink.delivered)
  {
    ReaderHasAll(f.reader, stream);
    hide Run, PipeReader.Packets, VideoReceiver.ArrivalsOf, PipeReader.Rest, Inv;
    hide PipeReader.Reader.Valid, VideoReceiver.VideoRx.Valid, RxFifo.VideoRxFifo.IsApart;
  }

  lemma ReaderHasAll(r: PipeReader.Reader, stream: seq<Byte>)
    requires r.Valid() && r.base == 0 && r.before == [] && r.history == stream
    requires r.read == |stream|
    ensures r.handed == PipeReader.Packets(stream)
  {
    hide PipeReader.Packets, PipeReader.Rest;
    assert stream[0..|stream|] == stream;
    assert r.handed == [] + PipeReader.Packets(stream);
  }

  /** While it reads a stream of packets it does not lose it, and a pass reads what there is. */
  lemma StaysInSync(f: RxFifo.VideoRxFifo, stream: seq<Byte>, seen: nat)
    requires f.Valid() && f.reader.base == 0 && f.reader.before == []
    requires f.reader.history <= stream && PipeReader.Rest(stream) == []
    requires f.reader.read <= seen <= |f.reader.history|
    ensures var rest := PipeReader.Rest(f.reader.history[f.reader.read..seen]);
      !PipeReader.IsLost(rest) && (seen == |stream| ==> rest == [])
  {
    hide Run, PipeReader.Packets, PipeReader.Rest, PipeReader.IsLost, Inv;
    var r := f.reader;
    PipeReader.StaysInSync(stream, r.handed, r.history, r.read, seen);
    if seen == |stream| {
      PipeReader.MoreHanded(r.handed, r.before, r.history, 0, r.read, seen);
      assert r.history[0..seen] == stream;
    }
  }

  /** What waits to be read is what was sent, behind the frames that were read. */
  ghost predicate WaitsAsSent(c: TxConfig, frames: seq<TxFrame>, prev: nat, sink: RxFrames.Frames)
    reads sink`taken, sink.fifo, sink.fifo.ring, RxFrames.FramesIn(sink.Waiting())
    reads set f | f in RxFrames.FramesIn(sink.Waiting()) :: f.data
    reads set f | f in RxFrames.FramesIn(sink.Waiting()) :: f.info
  {
    && |sink.taken| + |sink.Waiting()| == |frames| - 1
    && forall i | 0 <= i < |sink.Waiting()| ::
         && sink.Waiting()[i] != null
         && ShowsSent(c, frames, prev, |sink.taken| + i + 1, sink.Waiting()[i])
  }

  /** A frame of the pool is the numbered frame that was sent. */
  ghost predicate ShowsSent(c: TxConfig, frames: seq<TxFrame>, prev: nat, n: nat,
                            f: FramePool.PoolFrame)
    reads f, f.data, f.info
  {
    && n < |frames| && 0 <= frames[n].numValidBytes <= |frames[n].data|
    && IsSameFrame(c, frames[n], TimeSent(c, frames, prev, n), RxFrames.FrameOf(f))
  }

  /**
   * From one FIFO to the other: when the transmit thread has sent all frames of its FIFO
   * through an empty pipe, and a receive FIFO, in whatever passes, has read the pipe's bytes in
   * the format the frames were in, every frame but the first has come out as it went in, and
   * waits so until it is read.
   */
  lemma FramesComeOut(u: Setup, p: Progress, q: Progress, frames: seq<TxFrame>,
                      posted: seq<Posted>, f: RxFifo.VideoRxFifo)
    requires HasSent(u, p, q, frames, posted, []) && p.history == [] && frames != []
    requires AreSendable(u, p, frames)
    requires HasRead(f, q.history) && f.rx.format == VideoRoundTrip.SameFormat(u.source)
    requires VideoRoundTrip.AllWell(f.envs) && f.rx.sink.AreIntact(0)
    ensures CameOut(u.config, frames, p.prevRtpTime, f.rx.sink.delivered)
    ensures WaitsAsSent(u.config, frames, p.prevRtpTime, f.rx.sink)
  {
    DeliveredAsParsed(f, q.history);
    FramesAreParsed(u, p, q, frames, posted, f.envs, f.rx.sink.delivered);
    WaitingCameOut(u.config, frames, p.prevRtpTime, f.rx.sink);
  }

  /** What the application then reads are the frames sent, one after the other. */
  method ReadAsSent(ghost u: Setup, ghost p: Progress, ghost q: Progress,
                    ghost frames: seq<TxFrame>, ghost posted: seq<Posted>, f: RxFifo.VideoRxFifo)
    returns (frame: FramePool.PoolFrame?)
    requires HasSent(u, p, q, frames, posted, []) && p.history == [] && frames != []
    requires AreSendable(u, p, frames)
    requires HasRead(f, q.history) && f.rx.format == VideoRoundTrip.SameFormat(u.source)
    requires VideoRoundTrip.AllWell(f.envs) && f.rx.sink.AreIntact(0)
    modifies f.rx.sink`taken, f.rx.sink.fifo`head, f.rx.sink.fifo`load
    ensures f.rx.sink.AreIntact(0) && HasRead(f, q.history)
    ensures var n := |old(f.rx.sink.taken)| + 1;
      if frame == null then n == |frames| && f.rx.sink.taken == old(f.rx.sink.taken)
      else ShowsSent(u.config, frames, p.prevRtpTime, n, frame)
           && f.rx.sink.taken == old(f.rx.sink.taken) + [frame]
  {
    hide HasSent, AreSendable, IsSameFrame, RxFrames.FrameOf, RxFifo.VideoRxFifo.Valid, TimeSent;
    hide RxFrames.Frames.AreIntact, WaitsAsSent, CameOut;
    hide RxFrames.Frames.IsDelivered, RxFrames.Frames.Use, VideoRoundTrip.AllWell;
    FramesComeOut(u, p, q, frames, posted, f);
    FirstWaits(u.config, frames, p.prevRtpTime, f.rx.sink);
    WaitingIsInUse(f);
    ghost var queue := f.rx.sink.Waiting();
    frame := f.Read();
    if frame != null {
      assert frame == queue[0];
      assert RxFrames.FrameOf(frame) == old(RxFrames.FrameOf(queue[0]));
    }
  }

  lemma WaitingIsInUse(f: RxFifo.VideoRxFifo)
    requires f.Valid()
    ensures f.rx.sink.Use().waiting == f.rx.sink.Waiting()
  {
    f.rx.sink.NumbersAdd();
  }

  lemma FirstWaits(c: TxConfig, frames: seq<TxFrame>, prev: nat, sink: RxFrames.Frames)
    requires WaitsAsSent(c, frames, prev, sink)
    ensures if sink.Waiting() == [] then |sink.taken| + 1 == |frames|
            else sink.Waiting()[0] != null
                 && ShowsSent(c, frames, prev, |sink.taken| + 1, sink.Waiting()[0])
  {
    hide ShowsSent, RxFrames.Frames.Waiting;
    if sink.Waiting() != [] {
      assert ShowsSent(c, frames, prev, |sink.taken| + 0 + 1, sink.Waiting()[0]);
    }
  }

  lemma WaitingCameOut(c: TxConfig, frames: seq<TxFrame>, prev: nat, sink: RxFrames.Frames)
    requires sink.Valid() && sink.AreIntact(0) && CameOut(c, frames, prev, sink.delivered)
    ensures WaitsAsSent(c, frames, prev, sink)
  {
    sink.NumbersAdd();
    hide IsSameFrame, RxFrames.FrameOf;
    forall i | 0 <= i < |sink.Waiting()|
      ensures sink.Waiting()[i] != null
      ensures ShowsSent(c, frames, prev, |sink.taken| + i + 1, sink.Waiting()[i])
    {
      sink.WaitsAsDelivered(i);
      assert CameOut(c, frames, prev, sink.delivered);
    }
  }

  lemma FramesAreParsed(u: Setup, p: Progress, q: Progress, frames: seq<TxFrame>,
                        posted: seq<Posted>, envs: seq<Env>, delivered: seq<Frame>)
    requires HasSent(u, p, q, frames, posted, []) && p.history == [] && frames != []
    requires AreSendable(u, p, frames) && VideoRoundTrip.AllWell(envs)
    requires AreParsed(VideoRoundTrip.SameFormat(u.source), q.history, envs, delivered)
    ensures CameOut(u.config, frames, p.prevRtpTime, delivered)
  {
    hide Run, PipeReader.Packets, VideoReceiver.ArrivalsOf, VideoLossless.IsSource, IsRoomy;
    hide VideoRoundTrip.IsFit, VideoRoundTrip.AreReceived, ArePosted, AllPost, PostedBytes;
    hide Payloads, PayloadStream, AllAccepted, CanSend, IsLike, WiresOf, Wire, AreFrames, AreWires;
    hide IsSameFrame, VideoTx.IsSource;
    var c, wires := u.config, WiresOf(u.config, u.source, frames, p.prevRtpTime);
    var format := VideoRoundTrip.SameFormat(u.source);
    NothingComing(u, q);
    assert [] + PostedBytes(posted) == PostedBytes(posted);
    assert Payloads(posted) + [] == Payloads(posted);
    SourceIsFrames(c, wires);
    WiresAreFrames(c, u.source, frames, p.prevRtpTime);
    WireAt(c, u.source, frames, p.prevRtpTime, 0);
    FramesArrive(format, c, u.stream, p.net, wires, p.seqNum, posted, envs);
    var delivered := Run(format, INITIAL,
                         VideoReceiver.ArrivalsOf(PipeReader.Packets(q.history)), envs).delivered;
    ReceivedCount(format, c, wires, delivered);
    forall i | 0 < i < |frames|
      ensures 0 <= frames[i].numValidBytes <= |frames[i].data|
      ensures IsSameFrame(c, frames[i], TimeSent(c, frames, p.prevRtpTime, i), delivered[i - 1])
    {
      FrameComesOut(u, frames, wires, p.prevRtpTime, i, delivered);
    }
  }

  lemma ReceivedCount(format: Format, c: TxConfig, wires: seq<WireFrame>, delivered: seq<Frame>)
    requires VideoRoundTrip.AreReceived(format, c, wires, delivered, |wires|)
    ensures |delivered| == |wires| - 1
  {
  }

  lemma NothingComing(u: Setup, q: Progress)
    requires IsProgress(u, q)
    ensures AreTxFrames([]) && Coming(u, q, []) == []
  {
  }

  lemma SourceIsFrames(c: TxConfig, wires: seq<WireFrame>)
    requires VideoLossless.IsSource(c, wires)
    ensures AreFrames(c, wires)
  {
  }

  // A frame received, in terms of what was in the frame sent.
  lemma FrameComesOut(u: Setup, frames: seq<TxFrame>, wires: seq<WireFrame>, prev: nat, i: nat,
                      delivered: seq<Frame>)
    requires VideoRoundTrip.AreReceived(VideoRoundTrip.SameFormat(u.source), u.config, wires,
                                        delivered, |wires|)
    requires AllAccepted(u.config, frames) && VideoTx.IsSource(u.source, u.config)
    requires wires == WiresOf(u.config, u.source, frames, prev) && 0 < i < |frames| == |wires|
    ensures |delivered| == |wires| - 1 && 0 <= frames[i].numValidBytes <= |frames[i].data|
    ensures IsSameFrame(u.config, frames[i], TimeSent(u.config, frames, prev, i), delivered[i - 1])
  {
    hide Wire, VideoLossless.IsReceived, RowsInField, WiresOf, TimeSent;
    var sent := frames[i];
    assert IsAccepted(u.config, sent);
    WireAt(u.config, u.source, frames, prev, i);
    SourceIsValid(u.source, u.config);
    RowsInWholeGroups(u.config, RowsInField(u.config, sent.field));
    VideoRoundTrip.ReceivedAsSent(u.source, u.config, RowsOf(u.config, wires[0]),
                                  delivered[i - 1], wires[i], sent.data[..sent.numValidBytes]);
    RowsReceived(u.config, wires, i, delivered[i - 1], VideoRoundTrip.SameFormat(u.source));
    RowsCameOut(u.config, wires, i, sent.field, delivered[i - 1]);
  }

  // The rows a frame received comes with, by the field of the frame sent.
  lemma RowsCameOut(c: TxConfig, wires: seq<WireFrame>, i: nat, field: int, f: Frame)
    requires i < |wires| && wires[i].field == (field != 0)
    requires f.numRows == if VideoLossless.IsFielded(c) then RowsOf(c, wires[i])
                          else VideoLossless.LastRow(c, RowsOf(c, wires[0]))
    ensures f.numRows == if VideoLossless.IsFielded(c) then RowsInField(c, field)
                         else VideoLossless.LastRow(c, c.numRows)
  {
  }

  lemma RowsReceived(c: TxConfig, wires: seq<WireFrame>, i: nat, f: Frame, format: Format)
    requires i < |wires| && VideoLossless.IsReceived(format, c, RowsOf(c, wires[0]), f, wires[i])
    ensures f.numRows == if VideoLossless.IsFielded(c) then RowsOf(c, wires[i])
                         else VideoLossless.LastRow(c, RowsOf(c, wires[0]))
  {
  }
}
