// Source/AvFifo/DtSt2110Audio.c, transmission: what packets audio frames make.

module Audio {
  import opened Arithmetic
  import opened Bytes
  import opened TxStreams
  import MediaTime

  const MAX_PAYLOAD: nat := 1440

  /** The bytes of a sample of all channels, samples in a packet and samples in a second. */
  datatype AudioConfig = AudioConfig(bytesPerPeriod: nat, samplesPerPacket: nat, sampleRate: nat)

  predicate Valid(c: AudioConfig) {
    && c.bytesPerPeriod > 0 && c.samplesPerPacket > 0 && c.sampleRate > 0
    && c.bytesPerPeriod * c.samplesPerPacket <= MAX_PAYLOAD
  }

  function PayloadSize(c: AudioConfig): nat {
    c.bytesPerPeriod * c.samplesPerPacket
  }

  /** The time that the samples of a packet take, in thousandths of a nanosecond. */
  function PacketTime(c: AudioConfig): nat
    requires c.sampleRate > 0
  {
    1_000_000_000_000 * c.samplesPerPacket / c.sampleRate
  }

  datatype AudioFrame = AudioFrame(data: seq<Byte>, numValidBytes: int, rtpTime: nat,
                                   tod: MediaTime.TimeOfDay)

  /** A frame of samples: whole sample periods, and no more than there is memory for. */
  predicate IsAccepted(c: AudioConfig, f: AudioFrame)
    requires c.bytesPerPeriod > 0
  {
    0 <= f.numValidBytes <= |f.data| && f.numValidBytes % c.bytesPerPeriod == 0
  }

  function Samples(f: AudioFrame): seq<Byte>
    requires 0 <= f.numValidBytes <= |f.data|
  {
    f.data[..f.numValidBytes]
  }

  // ---------------------------------------------------------------- Samples in packets

  /** The samples of a packet, the timestamp of the first one, and when the packet goes out. */
  datatype AudioPacket = AudioPacket(samples: seq<Byte>, rtpTime: nat, todNs: nat)

  /** What waits for the next frame, and the times of the first sample of it. */
  datatype Waiting = Waiting(samples: seq<Byte>, rtpTime: nat, todNs: nat)

  function NextRtpTime(c: AudioConfig, rtpTime: nat): (t: nat)
    ensures t < W32
  {
    (rtpTime + c.samplesPerPacket) % W32
  }

  /** The full packets of samples, from some time past the first on. */
  function Cut(c: AudioConfig, samples: seq<Byte>, rtpTime: nat, firstTodNs: nat, offset: nat,
               delayNs: int): seq<AudioPacket>
    requires Valid(c)
    decreases |samples|
  {
    var size := PayloadSize(c);
    if |samples| < size then []
    else
      SizeIsPositive(c);
      [AudioPacket(samples[..size], rtpTime, TodOf(firstTodNs - delayNs, offset))]
      + Cut(c, samples[size..], NextRtpTime(c, rtpTime), firstTodNs,
            NextOffset(offset, PacketTime(c)), delayNs)
  }

  lemma CutOfFew(c: AudioConfig, samples: seq<Byte>, rtpTime: nat, firstTodNs: nat, offset: nat,
                 delayNs: int)
    requires Valid(c) && |samples| < PayloadSize(c)
    ensures Cut(c, samples, rtpTime, firstTodNs, offset, delayNs) == []
  {
    hide PayloadSize, TodOf, Valid, NextRtpTime, NextOffset;
  }

  lemma CutOfMany(c: AudioConfig, samples: seq<Byte>, rtpTime: nat, firstTodNs: nat, offset: nat,
                  delayNs: int)
    requires Valid(c) && |samples| >= PayloadSize(c)
    ensures Cut(c, samples, rtpTime, firstTodNs, offset, delayNs)
         == [AudioPacket(samples[..PayloadSize(c)], rtpTime, TodOf(firstTodNs - delayNs, offset))]
            + Cut(c, samples[PayloadSize(c)..], NextRtpTime(c, rtpTime), firstTodNs,
                  NextOffset(offset, PacketTime(c)), delayNs)
  {
    hide PayloadSize, TodOf, Valid, NextRtpTime, NextOffset;
  }

  lemma SizeIsPositive(c: AudioConfig)
    requires Valid(c)
    ensures 0 < PayloadSize(c) <= MAX_PAYLOAD
  {
    MulMonotone(1, c.bytesPerPeriod, c.samplesPerPacket);
  }

  /** What is left of samples that full packets have been cut from. */
  function Rest(c: AudioConfig, samples: seq<Byte>): (r: seq<Byte>)
    requires Valid(c)
    ensures |r| < PayloadSize(c)
    decreases |samples|
  {
    SizeIsPositive(c);
    if |samples| < PayloadSize(c) then samples else Rest(c, samples[PayloadSize(c)..])
  }

  /** The samples of packets, joined. */
  function Joined(packets: seq<AudioPacket>): seq<Byte> {
    if packets == [] then [] else packets[0].samples + Joined(packets[1..])
  }

  /** The samples of packets, packet by packet. */
  function Payloads(packets: seq<AudioPacket>): seq<seq<Byte>> {
    if packets == [] then [] else [packets[0].samples] + Payloads(packets[1..])
  }

  lemma {:induction false} PayloadsJoin(a: seq<AudioPacket>, b: seq<AudioPacket>)
    ensures Payloads(a + b) == Payloads(a) + Payloads(b)
  {
    if a == [] {
      assert a + b == b;
    } else {
      assert (a + b)[1..] == a[1..] + b;
      PayloadsJoin(a[1..], b);
    }
  }

  lemma {:induction false} JoinedJoin(a: seq<AudioPacket>, b: seq<AudioPacket>)
    ensures Joined(a + b) == Joined(a) + Joined(b)
  {
    if a == [] {
      assert a + b == b;
    } else {
      assert (a + b)[1..] == a[1..] + b;
      JoinedJoin(a[1..], b);
    }
  }

  predicate AllFull(c: AudioConfig, packets: seq<AudioPacket>) {
    forall i | 0 <= i < |packets| :: |packets[i].samples| == PayloadSize(c)
  }

  /** No sample is lost, none is sent twice, and every packet is full. */
  lemma {:induction false} CutKeepsSamples(c: AudioConfig, samples: seq<Byte>, rtpTime: nat,
                                           firstTodNs: nat, offset: nat, delayNs: int)
    requires Valid(c)
    ensures var packets := Cut(c, samples, rtpTime, firstTodNs, offset, delayNs);
      && Joined(packets) + Rest(c, samples) == samples && AllFull(c, packets)
      && |packets| * PayloadSize(c) + |Rest(c, samples)| == |samples|
    decreases |samples|
  {
    hide PayloadSize, TodOf, NextOffset;
    var size := PayloadSize(c);
    SizeIsPositive(c);
    if |samples| >= size {
      var next := NextRtpTime(c, rtpTime);
      var later := NextOffset(offset, PacketTime(c));
      CutKeepsSamples(c, samples[size..], next, firstTodNs, later, delayNs);
      var first := AudioPacket(samples[..size], rtpTime, TodOf(firstTodNs - delayNs, offset));
      var others := Cut(c, samples[size..], next, firstTodNs, later, delayNs);
      hide Cut, Rest, Valid;
      FirstOfPackets(c, first, others, samples, Rest(c, samples[size..]));
    }
  }

  lemma FirstOfPackets(c: AudioConfig, first: AudioPacket, others: seq<AudioPacket>,
                       samples: seq<Byte>, rest: seq<Byte>)
    requires PayloadSize(c) <= |samples| && first.samples == samples[..PayloadSize(c)]
    requires Joined(others) + rest == samples[PayloadSize(c)..] && AllFull(c, others)
    requires |others| * PayloadSize(c) + |rest| == |samples[PayloadSize(c)..]|
    ensures Joined([first] + others) + rest == samples && AllFull(c, [first] + others)
    ensures |[first] + others| * PayloadSize(c) + |rest| == |samples|
  {
    hide PayloadSize;
    var size := PayloadSize(c);
    assert ([first] + others)[1..] == others;
    OneMorePacket(|others|, size);
    hide *;
    assert samples == samples[..size] + samples[size..];
    assert samples[..size] + Joined(others) + rest == samples[..size] + (Joined(others) + rest);
  }

  lemma OneMorePacket(n: nat, size: nat)
    ensures (1 + n) * size == size + n * size
  {
  }

  /** Packet number i carries the samples from number i * samplesPerPacket on. */
  lemma {:induction false} CutTimes(c: AudioConfig, samples: seq<Byte>, rtpTime: nat,
                                    firstTodNs: nat, offset: nat, delayNs: int, i: nat)
    requires Valid(c) && rtpTime < W32
    ensures var packets := Cut(c, samples, rtpTime, firstTodNs, offset, delayNs);
      i < |packets| ==> packets[i].rtpTime == (rtpTime + i * c.samplesPerPacket) % W32
    decreases |samples|
  {
    hide PayloadSize, TodOf, NextOffset;
    var size := PayloadSize(c);
    SizeIsPositive(c);
    if |samples| >= size && i > 0 {
      var next := NextRtpTime(c, rtpTime);
      CutTimes(c, samples[size..], next, firstTodNs, NextOffset(offset, PacketTime(c)), delayNs,
               i - 1);
      NextTime(rtpTime, i, c.samplesPerPacket);
    }
  }

  lemma NextTime(rtpTime: nat, i: nat, samples: nat)
    requires i > 0
    ensures ((rtpTime + samples) % W32 + (i - 1) * samples) % W32 == (rtpTime + i * samples) % W32
  {
    assert i * samples == samples + (i - 1) * samples;
    ModAdd(rtpTime + samples, (i - 1) * samples);
  }

  lemma ModAdd(a: nat, b: nat)
    ensures (a % W32 + b) % W32 == (a + b) % W32
  {
  }

  // ---------------------------------------------------------------- A frame

  /** The times of the first sample to go out: of those waiting, or of the frame. */
  function FirstOf(w: Waiting, f: AudioFrame): Waiting
    requires 0 <= f.numValidBytes <= |f.data|
  {
    var samples := w.samples + Samples(f);
    if w.samples != [] then w.(samples := samples)
    else Waiting(samples, f.rtpTime, MediaTime.ToNs(f.tod))
  }

  /** The packets of a frame with the samples that waited for it. */
  function FramePackets(c: AudioConfig, w: Waiting, f: AudioFrame, delayNs: int): seq<AudioPacket>
    requires Valid(c) && IsAccepted(c, f)
  {
    var first := FirstOf(w, f);
    Cut(c, first.samples, first.rtpTime, first.todNs, 0, delayNs)
  }

  /** The timestamp and the time behind so many packets. */
  function TimesAfter(c: AudioConfig, packets: nat, rtpTime: nat, offset: nat): (nat, nat)
    requires c.sampleRate > 0
    decreases packets
  {
    if packets == 0 then (rtpTime, offset)
    else TimesAfter(c, packets - 1, NextRtpTime(c, rtpTime),
                    NextOffset(offset, PacketTime(c)))
  }

  /** What waits after a frame: the samples left over, after those that still wait. */
  function AfterFrame(c: AudioConfig, w: Waiting, f: AudioFrame, packets: nat): Waiting
    requires Valid(c) && IsAccepted(c, f)
  {
    var first := FirstOf(w, f);
    var rest := Rest(c, first.samples);
    var (rtpTime, offset) := TimesAfter(c, packets, first.rtpTime, 0);
    if rest == [] || (packets == 0 && w.samples != []) then w.(samples := rest)
    else Waiting(rest, rtpTime, (first.todNs + offset / PS_PER_NS) % W64)
  }

  lemma {:induction false} RtpTimeAfter(c: AudioConfig, packets: nat, rtpTime: nat, offset: nat)
    requires c.sampleRate > 0 && rtpTime < W32
    ensures TimesAfter(c, packets, rtpTime, offset).0
         == (rtpTime + packets * c.samplesPerPacket) % W32
    decreases packets
  {
    hide PacketTime;
    if packets > 0 {
      RtpTimeAfter(c, packets - 1, NextRtpTime(c, rtpTime),
                   NextOffset(offset, PacketTime(c)));
      NextTime(rtpTime, packets, c.samplesPerPacket);
    }
  }

  // ---------------------------------------------------------------- A run of frames

  /** The packets of frames, and what waits then; a frame refused changes nothing. */
  function Run(c: AudioConfig, w: Waiting, frames: seq<AudioFrame>,
               delayNs: int): (r: (seq<AudioPacket>, Waiting))
    requires Valid(c)
    decreases |frames|
  {
    if frames == [] then ([], w)
    else if !IsAccepted(c, frames[0]) then Run(c, w, frames[1..], delayNs)
    else
      var packets := FramePackets(c, w, frames[0], delayNs);
      var (others, last) := Run(c, AfterFrame(c, w, frames[0], |packets|), frames[1..], delayNs);
      (packets + others, last)
  }

  /** The samples of the frames that are accepted. */
  function AllSamples(c: AudioConfig, frames: seq<AudioFrame>): seq<Byte>
    requires Valid(c)
  {
    if frames == [] then []
    else (if IsAccepted(c, frames[0]) then Samples(frames[0]) else [])
         + AllSamples(c, frames[1..])
  }

  /**
   * However samples are divided over frames, the samples of the packets and then those still
   * waiting are those of the frames, in order, and every packet is full.
   */
  lemma {:induction false} RunKeepsSamples(c: AudioConfig, w: Waiting, frames: seq<AudioFrame>,
                                           delayNs: int)
    requires Valid(c) && |w.samples| < PayloadSize(c)
    ensures var (packets, last) := Run(c, w, frames, delayNs);
      && Joined(packets) + last.samples == w.samples + AllSamples(c, frames)
      && AllFull(c, packets) && |last.samples| < PayloadSize(c)
    decreases |frames|
  {
    hide PayloadSize, TimesAfter, TodOf, PacketTime, Cut, Rest, Samples;
    if frames == [] {
      assert w.samples + [] == w.samples;
    } else if !IsAccepted(c, frames[0]) {
      RunKeepsSamples(c, w, frames[1..], delayNs);
    } else {
      var f := frames[0];
      var first := FirstOf(w, f);
      var packets := FramePackets(c, w, f, delayNs);
      CutKeepsSamples(c, first.samples, first.rtpTime, first.todNs, 0, delayNs);
      var next := AfterFrame(c, w, f, |packets|);
      RunKeepsSamples(c, next, frames[1..], delayNs);
      var (others, last) := Run(c, next, frames[1..], delayNs);
      JoinedJoin(packets, others);
      FourParts(Joined(packets), Rest(c, first.samples), Joined(others), last.samples,
                AllSamples(c, frames[1..]), w.samples, Samples(f));
    }
  }

  lemma FourParts(a: seq<Byte>, rest: seq<Byte>, b: seq<Byte>, last: seq<Byte>, more: seq<Byte>,
                  w: seq<Byte>, f: seq<Byte>)
    requires a + rest == w + f && b + last == rest + more
    ensures (a + b) + last == w + (f + more)
  {
    assert (a + b) + last == a + (b + last);
    assert a + (rest + more) == (a + rest) + more;
  }

  /**
   * Frames stamped one after the other: the first sample of each is as many sample periods
   * after base as there are in front of it.
   */
  predicate IsContinuous(c: AudioConfig, base: nat, before: nat, frames: seq<AudioFrame>)
    requires Valid(c)
    decreases |frames|
  {
    frames == []
    || (if IsAccepted(c, frames[0])
        then && frames[0].rtpTime == (base + before / c.bytesPerPeriod) % W32
             && IsContinuous(c, base, before + frames[0].numValidBytes, frames[1..])
        else IsContinuous(c, base, before, frames[1..]))
  }

  /** Of frames stamped so, packet number i is stamped i packets of samples after base. */
  lemma {:induction false} RunKeepsTimes(c: AudioConfig, base: nat, k: nat, w: Waiting,
                                         frames: seq<AudioFrame>, delayNs: int, i: nat)
    requires Valid(c) && |w.samples| < PayloadSize(c)
    requires IsContinuous(c, base, k * PayloadSize(c) + |w.samples|, frames)
    requires w.samples != [] ==> w.rtpTime == (base + k * c.samplesPerPacket) % W32
    ensures var packets := Run(c, w, frames, delayNs).0;
      i < |packets| ==> packets[i].rtpTime == (base + (k + i) * c.samplesPerPacket) % W32
    decreases |frames|
  {
    if frames != [] {
      var f := frames[0];
      if !IsAccepted(c, f) {
        RunKeepsTimes(c, base, k, w, frames[1..], delayNs, i);
      } else {
        FirstTimeIs(c, base, k, w, f);
        hide PayloadSize, TimesAfter, TodOf, PacketTime, Cut, Rest, IsAccepted, Valid;
        FrameKeepsTimes(c, base, k, w, f, delayNs, i);
        var n := |FramePackets(c, w, f, delayNs)|;
        RunKeepsTimes(c, base, k + n, AfterFrame(c, w, f, n), frames[1..], delayNs,
                      if i < n then 0 else i - n);
      }
    }
  }

  // One frame: its packets' timestamps, and what the next frame starts from.
  lemma FrameKeepsTimes(c: AudioConfig, base: nat, k: nat, w: Waiting, f: AudioFrame,
                        delayNs: int, i: nat)
    requires Valid(c) && IsAccepted(c, f)
    requires FirstOf(w, f).rtpTime == (base + k * c.samplesPerPacket) % W32
    ensures var packets := FramePackets(c, w, f, delayNs);
      var n, next := |packets|, AfterFrame(c, w, f, |packets|);
      && (i < n ==> packets[i].rtpTime == (base + (k + i) * c.samplesPerPacket) % W32)
      && |next.samples| < PayloadSize(c)
      && k * PayloadSize(c) + |w.samples| + f.numValidBytes
         == (k + n) * PayloadSize(c) + |next.samples|
      && (next.samples != [] ==>
            next.rtpTime == (base + (k + n) * c.samplesPerPacket) % W32)
  {
    hide PayloadSize, TimesAfter, TodOf, PacketTime, Cut, Rest;
    var first := FirstOf(w, f);
    var n := |FramePackets(c, w, f, delayNs)|;
    CutKeepsSamples(c, first.samples, first.rtpTime, first.todNs, 0, delayNs);
    CutTimes(c, first.samples, first.rtpTime, first.todNs, 0, delayNs, i);
    RtpTimeAfter(c, n, first.rtpTime, 0);
    Later(base, k, i, c.samplesPerPacket);
    Later(base, k, n, c.samplesPerPacket);
    Counts(k, n, PayloadSize(c));
  }

  lemma FirstTimeIs(c: AudioConfig, base: nat, k: nat, w: Waiting, f: AudioFrame)
    requires Valid(c) && IsAccepted(c, f)
    requires w.samples == [] ==> f.rtpTime == (base + k * PayloadSize(c) / c.bytesPerPeriod) % W32
    requires w.samples != [] ==> w.rtpTime == (base + k * c.samplesPerPacket) % W32
    ensures FirstOf(w, f).rtpTime == (base + k * c.samplesPerPacket) % W32
  {
    if w.samples == [] {
      assert k * PayloadSize(c) == c.bytesPerPeriod * (k * c.samplesPerPacket);
      MultipleOf(c.bytesPerPeriod, k * c.samplesPerPacket);
    }
  }

  lemma Later(base: nat, k: nat, n: nat, samples: nat)
    ensures ((base + k * samples) % W32 + n * samples) % W32 == (base + (k + n) * samples) % W32
  {
    assert (k + n) * samples == k * samples + n * samples;
    ModAdd(base + k * samples, n * samples);
  }

  lemma Counts(k: nat, n: nat, size: nat)
    ensures (k + n) * size == k * size + n * size
  {
  }

  /** There are as many packets as the samples fill. */
  lemma CountOfCut(c: AudioConfig, samples: seq<Byte>, rtpTime: nat, firstTodNs: nat, offset: nat,
                   delayNs: int)
    requires Valid(c)
    ensures PayloadSize(c) > 0
    ensures |Cut(c, samples, rtpTime, firstTodNs, offset, delayNs)| == |samples| / PayloadSize(c)
  {
    hide Cut, Rest;
    SizeIsPositive(c);
    CutKeepsSamples(c, samples, rtpTime, firstTodNs, offset, delayNs);
    hide PayloadSize;
    DivUnique(|samples|, PayloadSize(c),
              |Cut(c, samples, rtpTime, firstTodNs, offset, delayNs)|);
  }
}
