// Source/AvFifo/DtSt2110Audio.c, transmission: audio frames into packets, in place.

module AudioPacketizer {
  import opened Arithmetic
  import opened Audio
  import opened Bytes
  import opened Headers
  import opened NetPackets
  import opened TxStreams

  datatype Result = Ok | InvalidFormat

  /** A sink of plain memory: the packets committed, oldest first. */
  class MemorySink {
    var packets: seq<seq<Byte>>

    constructor ()
      ensures packets == []
    {
      packets := [];
    }
  }

  /** A stream whose audio packets can be written. */
  predicate CanSend(n: Net, payloadType: int, ssrc: int) {
    IsNet(n) && IsAligned(n.alignment) && 0 <= payloadType < 0x80 && 0 <= ssrc < W32
  }

  /** The UDP payload of an audio packet. */
  function UdpPayload(payloadType: int, ssrc: int, seqNum: nat, rtpTime: nat,
                      samples: seq<Byte>): seq<Byte>
    requires 0 <= payloadType < 0x80 && 0 <= ssrc < W32 && rtpTime < W32
  {
    RtpBytes(Rtp(false, payloadType, seqNum % 0x10000, rtpTime, ssrc)) + samples
  }

  /** The sequence number after so many packets. */
  function NumberAfter(seqNum: nat, packets: nat): (n: nat)
    ensures n < W32
  {
    (seqNum + packets) % W32
  }

  predicate AreStamped(packets: seq<AudioPacket>) {
    forall i | 0 <= i < |packets| :: packets[i].rtpTime < W32
  }

  /** Packets as the sink gets them. */
  function Encoded(n: Net, payloadType: int, ssrc: int, seqNum: nat,
                   packets: seq<AudioPacket>): seq<seq<Byte>>
    requires CanSend(n, payloadType, ssrc) && AreStamped(packets)
    decreases |packets|
  {
    if packets == [] then []
    else
      var p := packets[0];
      [PacketBytes(n, UdpPayload(payloadType, ssrc, seqNum, p.rtpTime, p.samples), 0, p.todNs)]
      + Encoded(AfterPacket(n), payloadType, ssrc, NumberAfter(seqNum, 1), packets[1..])
  }

  /** An audio packetizer; a sample period of no bytes is raw audio, a packet a frame. */
  class AudioTx {
    const config: AudioConfig
    const leftOver: array<Byte>
    var leftOverBytes: nat
    var leftOverRtpTime: nat
    var leftOverTodNs: nat

    ghost predicate Valid()
      reads this
    {
      && (config.bytesPerPeriod > 0 ==>
            Audio.Valid(config) && leftOverBytes < PayloadSize(config))
      && leftOver.Length == MAX_PAYLOAD && leftOverBytes <= MAX_PAYLOAD
      && leftOverRtpTime < W32
    }

    /** What waits for the next frame. */
    ghost function Left(): Waiting
      requires Valid()
      reads this, leftOver
    {
      Waiting(leftOver[..leftOverBytes], leftOverRtpTime, leftOverTodNs)
    }

    constructor (config: AudioConfig)
      requires config.bytesPerPeriod > 0 ==> Audio.Valid(config)
      ensures Valid() && this.config == config && Left().samples == [] && fresh(leftOver)
    {
      this.config := config;
      leftOver := new Byte[MAX_PAYLOAD];
      leftOverBytes, leftOverRtpTime, leftOverTodNs := 0, 0, 0;
      new;
      if config.bytesPerPeriod > 0 {
        SizeIsPositive(config);
      }
    }

    /** After it no samples wait. */
    method Reset()
      requires Valid()
      modifies this`leftOverBytes
      ensures Valid() && Left().samples == []
    {
      leftOverBytes := 0;
      if config.bytesPerPeriod > 0 {
        SizeIsPositive(config);
      }
    }

    // One packet, with the waiting samples in front of the frame's.
    method WritePacket(stream: TxStream, sink: MemorySink, rtpTime: nat, todNs: nat,
                       waiting: seq<Byte>, fromFrame: seq<Byte>)
      requires CanSend(stream.net, stream.payloadType, stream.ssrc) && rtpTime < W32
      modifies stream`net, stream`nextSequenceNumber, sink
      ensures stream.net == AfterPacket(old(stream.net))
      ensures stream.nextSequenceNumber == NumberAfter(old(stream.nextSequenceNumber), 1)
      ensures sink.packets == old(sink.packets)
        + [PacketBytes(old(stream.net),
                       UdpPayload(stream.payloadType, stream.ssrc,
                                  old(stream.nextSequenceNumber), rtpTime, waiting + fromFrame),
                       0, todNs)]
    {
      hide Stored, RtpBytes, NetHeaderSize, PacketSize, PacketBytes, IsNet, IsAligned;
      var header := NetHeaderSize(stream.net);
      var payload := RTP_HEADER_SIZE + |waiting| + |fromFrame|;
      SizeHasRoom(stream.net, payload);
      var packet := new Byte[PacketSize(stream.net, payload)];
      var rtp := RtpBytes(Rtp(false, stream.payloadType, stream.nextSequenceNumber % 0x10000,
                              rtpTime, stream.ssrc));
      stream.nextSequenceNumber := (stream.nextSequenceNumber + 1) % W32;
      ghost var s0 := packet[..];
      Store(packet, header, rtp);
      ghost var s1 := packet[..];
      Store(packet, header + RTP_HEADER_SIZE, waiting);
      ghost var s2 := packet[..];
      Store(packet, header + RTP_HEADER_SIZE + |waiting|, fromFrame);
      PayloadIsThere(s0, s1, s2, packet[..], header, rtp, waiting, fromFrame);
      ghost var n, s3 := stream.net, packet[..];
      ghost var udp := rtp + (waiting + fromFrame);
      assert s3[header..header + payload] == udp;
      var size := stream.WriteHeaders(packet, 0, payload, 0, todNs);
      AllOfIt(s3, packet[..], PacketBytes(n, udp, 0, todNs));
      sink.packets := sink.packets + [packet[..size]];
    }

    /** How many packets sending the frame writes; -1 for one that is refused. */
    method PacketsForFrame(f: AudioFrame) returns (packets: int)
      requires Valid()
      ensures if config.bytesPerPeriod == 0
              then packets == if 0 <= f.numValidBytes <= |f.data| && f.numValidBytes <= MAX_PAYLOAD
                              then 1 else -1
              else packets == if IsAccepted(config, f)
                              then |FramePackets(config, Left(), f, 0)| else -1
    {
      if f.numValidBytes < 0 || f.numValidBytes > |f.data| {
        return -1;
      }
      if config.bytesPerPeriod == 0 {
        return if f.numValidBytes <= MAX_PAYLOAD then 1 else -1;
      }
      if f.numValidBytes % config.bytesPerPeriod != 0 {
        return -1;
      }
      var first := FirstOf(Left(), f);
      CountOfCut(config, first.samples, first.rtpTime, first.todNs, 0, 0);
      packets := (f.numValidBytes + leftOverBytes) / PayloadSize(config);
    }

    // The samples not yet sent: those left over, and those of the frame from some position on.
    ghost function Unsent(samples: seq<Byte>, from: nat): seq<Byte>
      requires Valid() && from <= |samples|
      reads this, leftOver
    {
      leftOver[..leftOverBytes] + samples[from..]
    }

    // The next packet: the samples left over, and as many of the frame as it has room for.
    method NextPacket(stream: TxStream, sink: MemorySink, samples: seq<Byte>, from: nat,
                      rtpTime: nat, firstTodNs: nat, offset: nat)
      returns (next: nat)
      requires Valid() && Audio.Valid(config) && from <= |samples| && rtpTime < W32
      requires CanSend(stream.net, stream.payloadType, stream.ssrc)
      requires |Unsent(samples, from)| >= PayloadSize(config)
      modifies this`leftOverBytes, stream`net, stream`nextSequenceNumber, sink
      ensures Valid() && leftOverBytes == 0 && from <= next <= |samples|
      ensures Unsent(samples, next) == old(Unsent(samples, from))[PayloadSize(config)..]
      ensures stream.net == AfterPacket(old(stream.net))
      ensures stream.nextSequenceNumber == NumberAfter(old(stream.nextSequenceNumber), 1)
      ensures sink.packets == old(sink.packets)
        + [PacketBytes(old(stream.net),
                       UdpPayload(stream.payloadType, stream.ssrc,
                                  old(stream.nextSequenceNumber), rtpTime,
                                  old(Unsent(samples, from))[..PayloadSize(config)]),
                       0, TodOf(firstTodNs - stream.outputDelayNs, offset))]
    {
      hide UdpPayload, PacketBytes, PayloadSize, CanSend;
      SizeIsPositive(config);
      ghost var unsent := Unsent(samples, from);
      var fromFrame := PayloadSize(config) - leftOverBytes;
      next := from + fromFrame;
      WritePacket(stream, sink, rtpTime, TodOf(firstTodNs - stream.outputDelayNs, offset),
                  leftOver[..leftOverBytes], samples[from..next]);
      assert unsent[..PayloadSize(config)] == leftOver[..leftOverBytes] + samples[from..next];
      assert unsent[PayloadSize(config)..] == samples[next..];
      leftOverBytes := 0;
    }

    /**
     * The stream and the sink in the middle of a frame: what the sink has and what is still to
     * come reach the goal.
     */
    ghost predicate IsSending(stream: TxStream, sink: MemorySink, samples: seq<Byte>, from: nat,
                              rtpTime: nat, firstTodNs: nat, offset: nat, packets: nat,
                              goal: Goal)
      reads this, leftOver, stream, sink
    {
      && Valid() && Audio.Valid(config) && from <= |samples| && rtpTime < W32
      && CanSend(stream.net, stream.payloadType, stream.ssrc)
      && IsToCome(config, stream.net, stream.payloadType, stream.ssrc,
                  stream.nextSequenceNumber, Unsent(samples, from), rtpTime, firstTodNs, offset,
                  stream.outputDelayNs, packets, sink.packets, goal)
    }

    // The next packet of a frame, sent.
    method SendNext(stream: TxStream, sink: MemorySink, samples: seq<Byte>, from: nat,
                    rtpTime: nat, firstTodNs: nat, offset: nat, ghost packets: nat,
                    ghost goal: Goal)
      returns (next: nat)
      requires packets > 0 && stream.nextSequenceNumber < W32
      requires IsSending(stream, sink, samples, from, rtpTime, firstTodNs, offset, packets, goal)
      modifies this`leftOverBytes, stream`net, stream`nextSequenceNumber, sink
      ensures leftOverBytes == 0 && stream.nextSequenceNumber < W32
      ensures stream.nextSequenceNumber == NumberAfter(old(stream.nextSequenceNumber), 1)
      ensures IsSending(stream, sink, samples, next,
                        NextRtpTime(config, rtpTime), firstTodNs,
                        NextOffset(offset, PacketTime(config)), packets - 1, goal)
    {
      hide UdpPayload, PacketBytes, PayloadSize, NextRtpTime, NextOffset, TodOf, IsNet, IsAligned;
      hide IsToCome;
      ghost var n, seqNum, unsent, sunk := stream.net, stream.nextSequenceNumber,
                                           Unsent(samples, from), sink.packets;
      ToComeGoesOn(config, n, stream.payloadType, stream.ssrc, seqNum, unsent, rtpTime, firstTodNs,
                   offset, stream.outputDelayNs, packets, sunk, goal);
      next := NextPacket(stream, sink, samples, from, rtpTime, firstTodNs, offset);
    }

    /** A frame's packets, with the samples that waited for it first. */
    method Packetize(stream: TxStream, f: AudioFrame, sink: MemorySink) returns (result: Result)
      requires Valid() && f.rtpTime < W32 && stream.nextSequenceNumber < W32
      requires CanSend(stream.net, stream.payloadType, stream.ssrc)
      modifies this, leftOver, stream`net, stream`nextSequenceNumber, sink
      ensures Valid() && stream.nextSequenceNumber < W32
      ensures config.bytesPerPeriod > 0 ==>
        && result == (if IsAccepted(config, f) then Ok else InvalidFormat)
        && (result == Ok ==>
              var packets := FramePackets(config, old(Left()), f, stream.outputDelayNs);
              && AreStamped(packets)
              && sink.packets == old(sink.packets)
                   + Encoded(old(stream.net), stream.payloadType, stream.ssrc,
                             old(stream.nextSequenceNumber), packets)
              && Left() == AfterFrame(config, old(Left()), f, |packets|)
              && stream.net == NetAfter(old(stream.net), |packets|)
              && stream.nextSequenceNumber == NumberAfter(old(stream.nextSequenceNumber), |packets|))
      ensures config.bytesPerPeriod == 0 ==>
        && result == (if 0 <= f.numValidBytes <= |f.data| && f.numValidBytes <= MAX_PAYLOAD
                      then Ok else InvalidFormat)
        && (result == Ok ==>
              && stream.net == AfterPacket(old(stream.net))
              && stream.nextSequenceNumber == NumberAfter(old(stream.nextSequenceNumber), 1)
              && Left() == old(Left())
              && sink.packets == old(sink.packets)
                   + [PacketBytes(old(stream.net),
                                  UdpPayload(stream.payloadType, stream.ssrc,
                                             old(stream.nextSequenceNumber), f.rtpTime,
                                             f.data[..f.numValidBytes]),
                                  0, (MediaTime.ToNs(f.tod) - stream.outputDelayNs) % W64)])
      ensures result == InvalidFormat ==>
        && Left() == old(Left()) && sink.packets == old(sink.packets)
        && stream.net == old(stream.net)
        && stream.nextSequenceNumber == old(stream.nextSequenceNumber)
    {
      hide UdpPayload, PacketBytes, IsNet, IsAligned, Audio.Valid, PayloadSize, FramePackets;
      hide AfterFrame, Encoded, AreStamped;
      var packets := PacketsForFrame(f);
      if packets < 0 {
        return InvalidFormat;
      }
      if config.bytesPerPeriod == 0 {
        WritePacket(stream, sink, f.rtpTime,
                    (MediaTime.ToNs(f.tod) - stream.outputDelayNs) % W64,
                    f.data[..f.numValidBytes], []);
        assert f.data[..f.numValidBytes] + [] == f.data[..f.numValidBytes];
        return Ok;
      }
      SendSamples(stream, sink, f, packets);
      result := Ok;
    }

    /**
     * Frames one after the other. The samples in their packets and then those that wait are the
     * samples that waited and those of the frames, in order, and every packet is full.
     */
    method PacketizeAll(stream: TxStream, frames: seq<AudioFrame>, sink: MemorySink)
      requires Valid() && config.bytesPerPeriod > 0 && AreTimed(frames)
      requires CanSend(stream.net, stream.payloadType, stream.ssrc)
      requires stream.nextSequenceNumber < W32
      modifies this, leftOver, stream`net, stream`nextSequenceNumber, sink
      ensures Valid()
      ensures var (packets, last) := Run(config, old(Left()), frames, stream.outputDelayNs);
        && AreStamped(packets) && Left() == last
        && sink.packets == old(sink.packets)
             + Encoded(old(stream.net), stream.payloadType, stream.ssrc,
                       old(stream.nextSequenceNumber), packets)
        && Joined(packets) + Left().samples == old(Left()).samples + AllSamples(config, frames)
        && AllFull(config, packets)
    {
      hide Encoded, AreStamped, CanSend, FramePackets, AfterFrame, IsAccepted, PayloadSize;
      hide UdpPayload, PacketBytes, Audio.Valid, Joined, AllSamples, AllFull, Run;
      hide NetAfter, NumberAfter;
      RunKeepsSamples(config, Left(), frames, stream.outputDelayNs);
      ghost var n, seqNum, w, sunk := stream.net, stream.nextSequenceNumber, Left(), sink.packets;
      ghost var done: seq<AudioPacket> := [];
      NothingEncoded(n, stream.payloadType, stream.ssrc, seqNum);
      NumberAfterBoth(seqNum, 0, 0);
      assert frames[0..] == frames && sunk + [] == sunk;
      for i := 0 to |frames|
        invariant Valid() && CanSend(n, stream.payloadType, stream.ssrc) && AreStamped(done)
        invariant CanSend(stream.net, stream.payloadType, stream.ssrc)
        invariant stream.net == NetAfter(n, |done|)
        invariant stream.nextSequenceNumber == NumberAfter(seqNum, |done|)
        invariant sink.packets == sunk + Encoded(n, stream.payloadType, stream.ssrc, seqNum, done)
        invariant var (all, last) := Run(config, w, frames, stream.outputDelayNs);
          var (others, end) := Run(config, Left(), frames[i..], stream.outputDelayNs);
          all == done + others && last == end
      {
        RunUnfolds(config, Left(), frames[i..], stream.outputDelayNs);
        assert frames[i..][0] == frames[i] && frames[i..][1..] == frames[i + 1..];
        ghost var packets := if IsAccepted(config, frames[i])
                             then FramePackets(config, Left(), frames[i], stream.outputDelayNs)
                             else [];
        var result := Packetize(stream, frames[i], sink);
        if result == Ok {
          SentMore(n, stream.payloadType, stream.ssrc, seqNum, done, packets);
        } else {
          assert done + packets == done;
        }
        done := done + packets;
      }
      RunUnfolds(config, Left(), frames[|frames|..], stream.outputDelayNs);
      assert frames[|frames|..] == [] && done + [] == done;
    }

    // The packets of a frame of samples, and what is left for the next one.
    method SendSamples(stream: TxStream, sink: MemorySink, f: AudioFrame, packets: nat)
      requires Valid() && f.rtpTime < W32 && stream.nextSequenceNumber < W32
      requires CanSend(stream.net, stream.payloadType, stream.ssrc)
      requires Audio.Valid(config) && IsAccepted(config, f)
      requires packets == |FramePackets(config, Left(), f, 0)|
      modifies this, leftOver, stream`net, stream`nextSequenceNumber, sink
      ensures Valid() && stream.nextSequenceNumber < W32
      ensures var all := FramePackets(config, old(Left()), f, stream.outputDelayNs);
        && AreStamped(all)
        && sink.packets == old(sink.packets)
             + Encoded(old(stream.net), stream.payloadType, stream.ssrc,
                       old(stream.nextSequenceNumber), all)
        && Left() == AfterFrame(config, old(Left()), f, |all|)
        && stream.net == NetAfter(old(stream.net), |all|)
        && stream.nextSequenceNumber == NumberAfter(old(stream.nextSequenceNumber), |all|)
    {
      hide Cut, Rest, TimesAfter, Encoded, PayloadSize, NextOffset, AreStamped, IsNet, IsAligned;
      ghost var w := Left();
      ghost var start := FirstOf(w, f);
      var samples := f.data[..f.numValidBytes];
      var firstTodNs, rtpTime: nat := MediaTime.ToNs(f.tod), f.rtpTime;
      if leftOverBytes != 0 {
        firstTodNs, rtpTime := leftOverTodNs, leftOverRtpTime;
      }
      var from: nat, offset: nat := 0, 0;
      ghost var all := FramePackets(config, w, f, stream.outputDelayNs);
      FrameBegins(config, w, f, stream.outputDelayNs);
      ghost var goal := Goal(sink.packets + Encoded(stream.net, stream.payloadType, stream.ssrc,
                                                    stream.nextSequenceNumber, all),
                             Rest(config, start.samples), TimesAfter(config, packets, rtpTime, 0),
                             NetAfter(stream.net, packets),
                             NumberAfter(stream.nextSequenceNumber, packets));
      assert samples[0..] == samples;
      from, rtpTime, offset := SendAll(stream, sink, samples, rtpTime, firstTodNs, packets, goal);
      NothingToCome(config, stream.net, stream.payloadType, stream.ssrc,
                    stream.nextSequenceNumber, Unsent(samples, from), rtpTime, firstTodNs, offset,
                    stream.outputDelayNs, sink.packets, goal);
      hide IsToCome;
      KeepRest(samples, from, firstTodNs, rtpTime, offset);
    }

    // All packets of a frame.
    method SendAll(stream: TxStream, sink: MemorySink, samples: seq<Byte>, firstRtpTime: nat,
                   firstTodNs: nat, packets: nat, ghost goal: Goal)
      returns (from: nat, rtpTime: nat, offset: nat)
      requires stream.nextSequenceNumber < W32 && config.sampleRate > 0
      requires IsSending(stream, sink, samples, 0, firstRtpTime, firstTodNs, 0, packets, goal)
      modifies this`leftOverBytes, stream`net, stream`nextSequenceNumber, sink
      ensures stream.nextSequenceNumber < W32
      ensures IsSending(stream, sink, samples, from, rtpTime, firstTodNs, offset, 0, goal)
      ensures if packets > 0 then leftOverBytes == 0
              else leftOverBytes == old(leftOverBytes) && from == 0
    {
      hide IsSending, NextRtpTime, NextOffset;
      from, rtpTime, offset := 0, firstRtpTime, 0;
      for i := 0 to packets
        invariant stream.nextSequenceNumber < W32
        invariant IsSending(stream, sink, samples, from, rtpTime, firstTodNs, offset, packets - i,
                            goal)
        invariant if i > 0 then leftOverBytes == 0
                  else leftOverBytes == old(leftOverBytes) && from == 0
      {
        from := SendNext(stream, sink, samples, from, rtpTime, firstTodNs, offset, packets - i,
                         goal);
        offset := NextOffset(offset, PacketTime(config));
        rtpTime := NextRtpTime(config, rtpTime);
      }
    }

    // The samples not sent are left over; their times change only when none were before.
    method KeepRest(samples: seq<Byte>, from: nat, firstTodNs: nat, rtpTime: nat, offset: nat)
      requires Valid() && Audio.Valid(config) && from <= |samples| && rtpTime < W32
      requires |Unsent(samples, from)| < PayloadSize(config)
      modifies this`leftOverBytes, this`leftOverRtpTime, this`leftOverTodNs, leftOver
      ensures Valid() && Left().samples == old(Unsent(samples, from))
      ensures if from < |samples| && old(leftOverBytes) == 0
              then leftOverRtpTime == rtpTime
                   && leftOverTodNs == (firstTodNs + offset / PS_PER_NS) % W64
              else leftOverRtpTime == old(leftOverRtpTime) && leftOverTodNs == old(leftOverTodNs)
    {
      hide PayloadSize, Stored;
      SizeIsPositive(config);
      ghost var was := leftOver[..];
      var remaining := |samples| - from;
      if remaining > 0 {
        if leftOverBytes == 0 {
          leftOverTodNs := (firstTodNs + offset / PS_PER_NS) % W64;
          leftOverRtpTime := rtpTime;
        }
        Store(leftOver, leftOverBytes, samples[from..]);
        StoredPrefix(was, leftOver[..], leftOverBytes, samples[from..], samples[from..]);
        leftOverBytes := leftOverBytes + remaining;
      }
    }
  }

  lemma PayloadIsThere(s0: seq<Byte>, s1: seq<Byte>, s2: seq<Byte>, s3: seq<Byte>, at: nat,
                       rtp: seq<Byte>, a: seq<Byte>, b: seq<Byte>)
    requires Stored(s0, s1, at, rtp) && Stored(s1, s2, at + |rtp|, a)
    requires Stored(s2, s3, at + |rtp| + |a|, b)
    ensures at + |rtp| + |a| + |b| <= |s3|
    ensures s3[at..at + |rtp| + |a| + |b|] == rtp + (a + b)
  {
    StoredBehind(s0, s1, s2, at, rtp, a);
    StoredBehind(s0, s2, s3, at, rtp + a, b);
    assert rtp + a + b == rtp + (a + b);
  }

  /**
   * Where a frame leads: what the sink has then, what is left, the times behind the last packet,
   * and how the stream goes on.
   */
  datatype Goal = Goal(sunk: seq<seq<Byte>>, rest: seq<Byte>, times: (nat, nat), net: Net,
                       seqNum: nat)

  /** A stream's headers after so many packets. */
  function NetAfter(n: Net, packets: nat): Net
    decreases packets
  {
    if packets == 0 then n else NetAfter(AfterPacket(n), packets - 1)
  }

  lemma RunUnfolds(c: AudioConfig, w: Waiting, frames: seq<AudioFrame>, delayNs: int)
    requires Audio.Valid(c)
    ensures frames == [] ==> Run(c, w, frames, delayNs) == ([], w)
    ensures frames != [] ==>
      var f := frames[0];
      var packets := if IsAccepted(c, f) then FramePackets(c, w, f, delayNs) else [];
      var next := if IsAccepted(c, f) then AfterFrame(c, w, f, |packets|) else w;
      var (others, last) := Run(c, next, frames[1..], delayNs);
      Run(c, w, frames, delayNs) == (packets + others, last)
  {
    hide FramePackets, AfterFrame, Audio.Valid, IsAccepted;
    if frames != [] {
      assert [] + Run(c, w, frames[1..], delayNs).0 == Run(c, w, frames[1..], delayNs).0;
    }
  }

  predicate AreTimed(frames: seq<AudioFrame>) {
    forall i | 0 <= i < |frames| :: frames[i].rtpTime < W32
  }

  lemma NothingEncoded(n: Net, payloadType: int, ssrc: int, seqNum: nat)
    requires CanSend(n, payloadType, ssrc)
    ensures AreStamped([]) && Encoded(n, payloadType, ssrc, seqNum, []) == []
    ensures NetAfter(n, 0) == n
  {
  }

  lemma {:induction false} NetStaysFit(n: Net, payloadType: int, ssrc: int, packets: nat)
    requires CanSend(n, payloadType, ssrc)
    ensures CanSend(NetAfter(n, packets), payloadType, ssrc)
    decreases packets
  {
    if packets > 0 {
      NetStaysFit(AfterPacket(n), payloadType, ssrc, packets - 1);
    }
  }

  lemma {:induction false} NetAfterBoth(n: Net, a: nat, b: nat)
    ensures NetAfter(NetAfter(n, a), b) == NetAfter(n, a + b)
    decreases a
  {
    hide AfterPacket;
    if a > 0 {
      NetAfterBoth(AfterPacket(n), a - 1, b);
    }
  }

  lemma NumberAfterBoth(seqNum: nat, a: nat, b: nat)
    ensures NumberAfter(NumberAfter(seqNum, a), b) == NumberAfter(seqNum, a + b)
    ensures seqNum < W32 ==> NumberAfter(seqNum, 0) == seqNum
  {
  }

  // More packets behind those that the sink has.
  lemma {:induction false} EncodedJoin(n: Net, payloadType: int, ssrc: int, seqNum: nat,
                                       a: seq<AudioPacket>, b: seq<AudioPacket>)
    requires CanSend(n, payloadType, ssrc) && AreStamped(a) && AreStamped(b) && seqNum < W32
    ensures CanSend(NetAfter(n, |a|), payloadType, ssrc) && AreStamped(a + b)
    ensures Encoded(n, payloadType, ssrc, seqNum, a + b)
         == Encoded(n, payloadType, ssrc, seqNum, a)
            + Encoded(NetAfter(n, |a|), payloadType, ssrc, NumberAfter(seqNum, |a|), b)
    decreases |a|
  {
    hide PacketBytes, UdpPayload, CanSend, AfterPacket, AreStamped, NumberAfter, Encoded;
    StampedJoin(a, b);
    NetStaysFit(n, payloadType, ssrc, |a|);
    if a == [] {
      assert a + b == b;
      NumberAfterBoth(seqNum, 0, 0);
      NothingEncoded(n, payloadType, ssrc, seqNum);
    } else {
      NumberAfterBoth(seqNum, 1, |a| - 1);
      assert a == [a[0]] + a[1..] && a + b == [a[0]] + (a[1..] + b);
      EncodedUnfolds(n, payloadType, ssrc, seqNum, a[0], a[1..]);
      StampedJoin(a[1..], b);
      EncodedUnfolds(n, payloadType, ssrc, seqNum, a[0], a[1..] + b);
      EncodedJoin(AfterPacket(n), payloadType, ssrc, NumberAfter(seqNum, 1), a[1..], b);
    }
  }

  lemma StampedJoin(a: seq<AudioPacket>, b: seq<AudioPacket>)
    requires AreStamped(a) && AreStamped(b)
    ensures AreStamped(a + b)
  {
  }

  // The same, with how the stream goes on.
  lemma SentMore(n: Net, payloadType: int, ssrc: int, seqNum: nat, a: seq<AudioPacket>,
                 b: seq<AudioPacket>)
    requires CanSend(n, payloadType, ssrc) && AreStamped(a) && AreStamped(b) && seqNum < W32
    ensures CanSend(NetAfter(n, |a|), payloadType, ssrc)
    ensures CanSend(NetAfter(n, |a + b|), payloadType, ssrc) && AreStamped(a + b)
    ensures NetAfter(NetAfter(n, |a|), |b|) == NetAfter(n, |a + b|)
    ensures NumberAfter(NumberAfter(seqNum, |a|), |b|) == NumberAfter(seqNum, |a + b|)
    ensures Encoded(n, payloadType, ssrc, seqNum, a + b)
         == Encoded(n, payloadType, ssrc, seqNum, a)
            + Encoded(NetAfter(n, |a|), payloadType, ssrc, NumberAfter(seqNum, |a|), b)
  {
    hide Encoded, AreStamped, CanSend, NetAfter, NumberAfter;
    NumberAfterBoth(seqNum, |a|, |b|);
    NetStaysFit(n, payloadType, ssrc, |a + b|);
    NetAfterBoth(n, |a|, |b|);
    EncodedJoin(n, payloadType, ssrc, seqNum, a, b);
  }

  // What the sink has, and the packets of the samples not yet sent, reach the goal.
  ghost predicate IsToCome(c: AudioConfig, n: Net, payloadType: int, ssrc: int, seqNum: nat,
                           unsent: seq<Byte>, rtpTime: nat, firstTodNs: nat, offset: nat,
                           delayNs: int, packets: nat, sunk: seq<seq<Byte>>, goal: Goal)
    requires Audio.Valid(c) && CanSend(n, payloadType, ssrc)
  {
    var left := Cut(c, unsent, rtpTime, firstTodNs, offset, delayNs);
    && |left| == packets && AreStamped(left) && Rest(c, unsent) == goal.rest
    && TimesAfter(c, packets, rtpTime, offset) == goal.times
    && sunk + Encoded(n, payloadType, ssrc, seqNum, left) == goal.sunk
    && NetAfter(n, packets) == goal.net && NumberAfter(seqNum, packets) == goal.seqNum
  }

  lemma ToComeGoesOn(c: AudioConfig, n: Net, payloadType: int, ssrc: int, seqNum: nat,
                     unsent: seq<Byte>, rtpTime: nat, firstTodNs: nat, offset: nat,
                     delayNs: int, packets: nat, sunk: seq<seq<Byte>>, goal: Goal)
    requires Audio.Valid(c) && CanSend(n, payloadType, ssrc) && packets > 0 && rtpTime < W32
    requires IsToCome(c, n, payloadType, ssrc, seqNum, unsent, rtpTime, firstTodNs, offset,
                      delayNs, packets, sunk, goal)
    ensures |unsent| >= PayloadSize(c) && CanSend(AfterPacket(n), payloadType, ssrc)
    ensures IsToCome(c, AfterPacket(n), payloadType, ssrc, NumberAfter(seqNum, 1),
                     unsent[PayloadSize(c)..], NextRtpTime(c, rtpTime),
                     firstTodNs, NextOffset(offset, PacketTime(c)), delayNs, packets - 1,
                     sunk + [PacketBytes(n, UdpPayload(payloadType, ssrc, seqNum, rtpTime,
                                                       unsent[..PayloadSize(c)]),
                                         0, TodOf(firstTodNs - delayNs, offset))],
                     goal)
  {
    CutUnfolds(c, unsent, rtpTime, firstTodNs, offset, delayNs);
    TimesUnfold(c, packets, rtpTime, offset);
    NumberGoesOn(seqNum, packets);
    var later := NextOffset(offset, PacketTime(c));
    hide UdpPayload, PacketBytes, PayloadSize, NextRtpTime, NextOffset, TodOf, CanSend, Cut, Rest;
    hide TimesAfter;
    hide Encoded, AreStamped, Audio.Valid;
    var first := AudioPacket(unsent[..PayloadSize(c)], rtpTime, TodOf(firstTodNs - delayNs, offset));
    var others := Cut(c, unsent[PayloadSize(c)..], NextRtpTime(c, rtpTime),
                      firstTodNs, later, delayNs);
    EncodedUnfolds(n, payloadType, ssrc, seqNum, first, others);
    Associate(sunk,
              [PacketBytes(n, UdpPayload(payloadType, ssrc, seqNum, rtpTime, first.samples), 0,
                           first.todNs)],
              Encoded(AfterPacket(n), payloadType, ssrc, NumberAfter(seqNum, 1), others));
  }

  lemma NumberGoesOn(seqNum: nat, packets: nat)
    requires packets > 0
    ensures NumberAfter(NumberAfter(seqNum, 1), packets - 1) == NumberAfter(seqNum, packets)
  {
  }

  lemma NothingToCome(c: AudioConfig, n: Net, payloadType: int, ssrc: int, seqNum: nat,
                      unsent: seq<Byte>, rtpTime: nat, firstTodNs: nat, offset: nat,
                      delayNs: int, sunk: seq<seq<Byte>>, goal: Goal)
    requires Audio.Valid(c) && CanSend(n, payloadType, ssrc)
    requires IsToCome(c, n, payloadType, ssrc, seqNum, unsent, rtpTime, firstTodNs, offset,
                      delayNs, 0, sunk, goal)
    ensures sunk == goal.sunk && unsent == goal.rest && |unsent| < PayloadSize(c)
    ensures goal.times == (rtpTime, offset) && n == goal.net && NumberAfter(seqNum, 0) == goal.seqNum
  {
    CutUnfolds(c, unsent, rtpTime, firstTodNs, offset, delayNs);
    RestUnfolds(c, unsent);
    hide Cut, Rest, PayloadSize;
    assert sunk + [] == sunk;
  }

  lemma Associate(a: seq<seq<Byte>>, b: seq<seq<Byte>>, c: seq<seq<Byte>>)
    ensures a + (b + c) == a + b + c
  {
  }

  // The first packet of samples, and what is left behind it.
  lemma CutUnfolds(c: AudioConfig, samples: seq<Byte>, rtpTime: nat, firstTodNs: nat,
                   offset: nat, delayNs: int)
    requires Audio.Valid(c)
    ensures var packets := Cut(c, samples, rtpTime, firstTodNs, offset, delayNs);
      if packets == [] then |samples| < PayloadSize(c)
      else
        && |samples| >= PayloadSize(c)
        && packets == [AudioPacket(samples[..PayloadSize(c)], rtpTime,
                                   TodOf(firstTodNs - delayNs, offset))]
             + Cut(c, samples[PayloadSize(c)..], NextRtpTime(c, rtpTime),
                   firstTodNs, NextOffset(offset, PacketTime(c)), delayNs)
        && Rest(c, samples) == Rest(c, samples[PayloadSize(c)..])
  {
    hide PayloadSize, NextRtpTime, NextOffset, TodOf, Rest, Audio.Valid, Cut;
    RestUnfolds(c, samples);
    if |samples| < PayloadSize(c) {
      CutOfFew(c, samples, rtpTime, firstTodNs, offset, delayNs);
    } else {
      CutOfMany(c, samples, rtpTime, firstTodNs, offset, delayNs);
    }
  }

  lemma RestUnfolds(c: AudioConfig, samples: seq<Byte>)
    requires Audio.Valid(c)
    ensures PayloadSize(c) <= |samples| ==> Rest(c, samples) == Rest(c, samples[PayloadSize(c)..])
    ensures PayloadSize(c) > |samples| ==> Rest(c, samples) == samples
  {
    hide PayloadSize;
    SizeIsPositive(c);
  }

  lemma EncodedUnfolds(n: Net, payloadType: int, ssrc: int, seqNum: nat, first: AudioPacket,
                       others: seq<AudioPacket>)
    requires CanSend(n, payloadType, ssrc) && AreStamped([first] + others)
    ensures first.rtpTime < W32 && AreStamped(others)
    ensures CanSend(AfterPacket(n), payloadType, ssrc)
    ensures Encoded(n, payloadType, ssrc, seqNum, [first] + others)
         == [PacketBytes(n, UdpPayload(payloadType, ssrc, seqNum, first.rtpTime, first.samples), 0,
                         first.todNs)]
            + Encoded(AfterPacket(n), payloadType, ssrc, NumberAfter(seqNum, 1), others)
  {
    hide PacketBytes, UdpPayload;
    var packets := [first] + others;
    assert packets[0] == first && packets[1..] == others;
    forall i | 0 <= i < |others|
      ensures others[i].rtpTime < W32
    {
      assert others[i] == packets[i + 1];
    }
  }

  lemma TimesUnfold(c: AudioConfig, packets: nat, rtpTime: nat, offset: nat)
    requires c.sampleRate > 0 && packets > 0
    ensures TimesAfter(c, packets, rtpTime, offset)
         == TimesAfter(c, packets - 1, NextRtpTime(c, rtpTime),
                       NextOffset(offset, PacketTime(c)))
  {
    hide NextOffset, NextRtpTime;
  }

  lemma {:induction false} CutIsStamped(c: AudioConfig, samples: seq<Byte>, rtpTime: nat,
                                        firstTodNs: nat, offset: nat, delayNs: int)
    requires Audio.Valid(c) && rtpTime < W32
    ensures AreStamped(Cut(c, samples, rtpTime, firstTodNs, offset, delayNs))
    decreases |samples|
  {
    CutUnfolds(c, samples, rtpTime, firstTodNs, offset, delayNs);
    SizeIsPositive(c);
    hide Cut, PayloadSize, NextRtpTime, NextOffset, TodOf, Rest;
    if Cut(c, samples, rtpTime, firstTodNs, offset, delayNs) != [] {
      CutIsStamped(c, samples[PayloadSize(c)..], NextRtpTime(c, rtpTime),
                   firstTodNs, NextOffset(offset, PacketTime(c)), delayNs);
    }
  }

  // What a frame starts from.
  lemma FrameBegins(c: AudioConfig, w: Waiting, f: AudioFrame, delayNs: int)
    requires Audio.Valid(c) && IsAccepted(c, f) && w.rtpTime < W32 && f.rtpTime < W32
    ensures AreStamped(FramePackets(c, w, f, delayNs))
    ensures |FramePackets(c, w, f, delayNs)| == |FramePackets(c, w, f, 0)|
  {
    hide Cut, PayloadSize, AreStamped;
    var first := FirstOf(w, f);
    CutIsStamped(c, first.samples, first.rtpTime, first.todNs, 0, delayNs);
    CountOfCut(c, first.samples, first.rtpTime, first.todNs, 0, delayNs);
    CountOfCut(c, first.samples, first.rtpTime, first.todNs, 0, 0);
  }

  lemma AllOfIt(pre: seq<Byte>, post: seq<Byte>, bytes: seq<Byte>)
    requires Stored(pre, post, 0, bytes) && |bytes| == |pre|
    ensures post == bytes && post[..|bytes|] == bytes
  {
  }
}
