// Source/AvFifo/DtSt2110Audio.c, transmission: when the packets of audio frames go out.

module AudioTimes {
  import opened Arithmetic
  import opened Audio
  import opened AudioPacketizer
  import opened Bytes
  import opened Headers
  import opened NetPackets
  import opened NetReceiver
  import opened TxStreams

  // ---------------------------------------------------------------- Packets of one frame

  /**
   * An offset, in thousandths of a nanosecond, is the time of the samples of n packets, but for
   * less than a thousandth of a nanosecond a packet.
   */
  predicate IsOffset(c: AudioConfig, n: nat, offset: nat) {
    var exact := n * c.samplesPerPacket * 1_000_000_000_000;
    offset * c.sampleRate <= exact <= (offset + n) * c.sampleRate
  }

  lemma OffsetOf(c: AudioConfig, n: nat)
    requires Audio.Valid(c)
    ensures IsOffset(c, n, n * PacketTime(c))
  {
    var x, t := 1_000_000_000_000 * c.samplesPerPacket, PacketTime(c);
    DivBounds(x, c.sampleRate);
    MulMonotone(t * c.sampleRate, x, n);
    MulMonotone(x, t * c.sampleRate + c.sampleRate, n);
    Products(n, t, c.sampleRate, c.samplesPerPacket);
  }

  lemma Products(n: nat, t: nat, rate: nat, samples: nat)
    ensures n * t * rate == t * rate * n && (n * t + n) * rate == (t * rate + rate) * n
    ensures n * samples * 1_000_000_000_000 == 1_000_000_000_000 * samples * n
  {
  }

  lemma {:induction false} CutTods(c: AudioConfig, samples: seq<Byte>, rtpTime: nat,
                                   firstTodNs: nat, offset: nat, delayNs: int, i: nat)
    requires Audio.Valid(c) && offset < W64
    ensures var packets := Cut(c, samples, rtpTime, firstTodNs, offset, delayNs);
      i < |packets| ==>
        packets[i].todNs
        == (firstTodNs - delayNs + (offset + i * PacketTime(c)) % W64 / 1000) % W64
    decreases |samples|
  {
    hide PayloadSize, NextRtpTime, PacketTime, NextOffset;
    var size := PayloadSize(c);
    SizeIsPositive(c);
    if |samples| < size {
      CutOfFew(c, samples, rtpTime, firstTodNs, offset, delayNs);
    } else {
      CutOfMany(c, samples, rtpTime, firstTodNs, offset, delayNs);
      hide Cut;
      if i == 0 {
        SmallModulo64(offset);
      } else {
        NextOffsetIs(offset, i, PacketTime(c));
        CutTods(c, samples[size..], NextRtpTime(c, rtpTime), firstTodNs,
                NextOffset(offset, PacketTime(c)), delayNs, i - 1);
      }
    }
  }

  /** The time of the first sample that a frame's packets carry: one that waited, or its own. */
  function FirstTime(w: Waiting, f: AudioFrame): nat {
    if w.samples != [] then w.todNs else f.tod.seconds * 1_000_000_000 + f.tod.nanoseconds
  }

  /** A time in 64 bits is one of so many packets of samples after a first one. */
  ghost predicate IsBehind(c: AudioConfig, n: nat, first: int, todNs: nat) {
    exists offset: nat :: IsOffset(c, n, offset)
      && todNs == (first + offset % 0x1_0000_0000_0000_0000 / 1000) % 0x1_0000_0000_0000_0000
  }

  /**
   * Packet i of a frame goes out i packets of samples after the first one's time, less the delay;
   * what is left over for the next frame has the time behind them all.
   */
  lemma FrameTods(c: AudioConfig, w: Waiting, f: AudioFrame, delayNs: int, i: nat)
    requires Audio.Valid(c) && IsAccepted(c, f)
    ensures var packets := FramePackets(c, w, f, delayNs);
      var next := AfterFrame(c, w, f, |packets|);
      && (i < |packets| ==> IsBehind(c, i, FirstTime(w, f) - delayNs, packets[i].todNs))
      && (next.samples != [] ==>
            if packets == [] && w.samples != [] then next.todNs == w.todNs
            else IsBehind(c, |packets|, FirstTime(w, f), next.todNs))
  {
    hide PayloadSize, NextRtpTime, Cut, Rest, TimesAfter, PacketTime;
    var first := FirstOf(w, f);
    assert first.todNs == FirstTime(w, f);
    var packets := FramePackets(c, w, f, delayNs);
    CutTods(c, first.samples, first.rtpTime, first.todNs, 0, delayNs, i);
    OffsetOf(c, i);
    OffsetOf(c, |packets|);
    OffsetAfter(c, |packets|, first.rtpTime, 0);
    hide IsOffset;
  }

  lemma {:induction false} OffsetAfter(c: AudioConfig, packets: nat, rtpTime: nat, offset: nat)
    requires c.sampleRate > 0 && offset < W64
    ensures TimesAfter(c, packets, rtpTime, offset).1 == (offset + packets * PacketTime(c)) % W64
    decreases packets
  {
    hide PacketTime, NextRtpTime, NextOffset;
    if packets == 0 {
      SmallModulo64(offset);
    } else {
      NextOffsetIs(offset, packets, PacketTime(c));
      OffsetAfter(c, packets - 1, NextRtpTime(c, rtpTime), NextOffset(offset, PacketTime(c)));
    }
  }

  // ---------------------------------------------------------------- A run of frames

  /**
   * A time is that of so many samples after base, but for so many thousandths of a nanosecond that
   * it is early or late at most.
   */
  predicate IsNear(c: AudioConfig, base: int, samples: int, ns: int, early: nat, late: nat) {
    var exact := samples * 1_000_000_000_000;
    exact - early * c.sampleRate <= (ns - base) * 1000 * c.sampleRate <= exact + late * c.sampleRate
  }

  /** The same of a time in 64 bits. */
  ghost predicate HasTime(c: AudioConfig, base: int, samples: int, todNs: nat, early: nat,
                          late: nat) {
    exists ns: int :: IsNear(c, base, samples, ns, early, late)
      && todNs % 0x1_0000_0000_0000_0000 == ns % 0x1_0000_0000_0000_0000
  }

  /** The same of so many packets of samples. */
  ghost predicate IsOnTime(c: AudioConfig, base: int, packets: int, todNs: nat, early: nat,
                           late: nat) {
    HasTime(c, base, packets * c.samplesPerPacket, todNs, early, late)
  }

  /** The samples of a frame and a packet take less than 2^64 thousandths of a nanosecond. */
  predicate IsShort(c: AudioConfig, f: AudioFrame)
    requires c.bytesPerPeriod > 0
  {
    (f.numValidBytes / c.bytesPerPeriod + c.samplesPerPacket) * 1_000_000_000_000
    < 0x1_0000_0000_0000_0000 * c.sampleRate
  }

  lemma IntsAreShort(c: AudioConfig, f: AudioFrame)
    requires Audio.Valid(c) && c.sampleRate >= 1000 && 0 <= f.numValidBytes <= INT_MAX
    ensures IsShort(c, f)
  {
    DivBounds(f.numValidBytes, c.bytesPerPeriod);
    MulMonotone(1, c.bytesPerPeriod, f.numValidBytes / c.bytesPerPeriod);
    MulMonotone(1, c.bytesPerPeriod, c.samplesPerPacket);
  }

  /**
   * Frames timed one after the other: the first sample of each is as late after base as the
   * samples in front of it are long, but for that error.
   */
  ghost predicate AreTimed(c: AudioConfig, base: int, before: nat, frames: seq<AudioFrame>,
                           early: nat, late: nat)
    requires Audio.Valid(c)
    decreases |frames|
  {
    frames == []
    || (if IsAccepted(c, frames[0])
        then && HasTime(c, base, before / c.bytesPerPeriod,
                        frames[0].tod.seconds * 1_000_000_000 + frames[0].tod.nanoseconds, early,
                        late)
             && IsShort(c, frames[0])
             && AreTimed(c, base, before + frames[0].numValidBytes, frames[1..], early, late)
        else AreTimed(c, base, before, frames[1..], early, late))
  }

  // A time n packets behind one that is near.
  lemma BehindIsNear(c: AudioConfig, base: int, k: nat, n: nat, first: nat, delayNs: int,
                     todNs: nat, early: nat, late: nat)
    requires Audio.Valid(c) && IsOnTime(c, base, k, first, early, late)
    requires IsBehind(c, n, first - delayNs, todNs)
    requires n * c.samplesPerPacket * 1_000_000_000_000 < W64 * c.sampleRate
    ensures IsOnTime(c, base - delayNs, k + n, todNs, early + n + 1000, late)
  {
    var x: int :| IsNear(c, base, k * c.samplesPerPacket, x, early, late)
                  && first % W64 == x % W64;
    var offset: nat :| IsOffset(c, n, offset)
                       && todNs == (first - delayNs + offset % W64 / 1000) % W64;
    if offset >= W64 {
      MulMonotone(W64, offset, c.sampleRate);
    }
    SmallModulo64(offset);
    var d := offset / 1000;
    SameBehind(first, x, d - delayNs);
    Nearness(c, base, k, n, x, delayNs, offset, early, late);
    assert IsNear(c, base - delayNs, (k + n) * c.samplesPerPacket, x - delayNs + d,
                  early + n + 1000, late);
  }

  lemma SameBehind(a: int, b: int, d: int)
    requires a % W64 == b % W64
    ensures (a + d) % W64 == (b + d) % W64
    ensures (a + d) % W64 % W64 == (a + d) % W64
  {
    ModAdd64(a, d);
    ModAdd64(b, d);
    SmallModulo64((a + d) % W64);
  }

  lemma Nearness(c: AudioConfig, base: int, k: nat, n: nat, x: int, delayNs: int, offset: nat,
                 early: nat, late: nat)
    requires IsNear(c, base, k * c.samplesPerPacket, x, early, late) && IsOffset(c, n, offset)
    ensures IsNear(c, base - delayNs, (k + n) * c.samplesPerPacket, x - delayNs + offset / 1000,
                   early + n + 1000, late)
  {
    var rate, d := c.sampleRate, offset / 1000;
    DivBounds(offset, 1000);
    MulMonotone(1000 * d, offset, rate);
    MulMonotone(offset - 1000, 1000 * d, rate);
    assert (offset - 1000) * rate == offset * rate - 1000 * rate;
    assert (offset + n) * rate == offset * rate + n * rate;
    assert (early + n + 1000) * rate == early * rate + n * rate + 1000 * rate;
    assert (x - delayNs + d - (base - delayNs)) * 1000 * rate
        == (x - base) * 1000 * rate + 1000 * d * rate;
    assert (k + n) * c.samplesPerPacket == k * c.samplesPerPacket + n * c.samplesPerPacket;
  }

  lemma MoreTime(c: AudioConfig, base: int, packets: int, todNs: nat, early: nat, more: nat,
                 late: nat)
    requires IsOnTime(c, base, packets, todNs, early, late) && early <= more
    ensures IsOnTime(c, base, packets, todNs, more, late)
  {
    var samples := packets * c.samplesPerPacket;
    var ns: int :| IsNear(c, base, samples, ns, early, late) && todNs % W64 == ns % W64;
    MulMonotone(early, more, c.sampleRate);
    assert IsNear(c, base, samples, ns, more, late);
  }

  // The packets of a short frame take less than 2^64 thousandths of a nanosecond.
  lemma FewPackets(c: AudioConfig, waiting: nat, f: AudioFrame, n: nat)
    requires Audio.Valid(c) && IsAccepted(c, f) && IsShort(c, f) && waiting < PayloadSize(c)
    requires n * PayloadSize(c) <= waiting + f.numValidBytes
    ensures n * c.samplesPerPacket * 1_000_000_000_000 < W64 * c.sampleRate
  {
    var periods, size := f.numValidBytes / c.bytesPerPeriod, c.bytesPerPeriod;
    assert f.numValidBytes == periods * size;
    assert n * PayloadSize(c) == n * c.samplesPerPacket * size;
    assert (periods + c.samplesPerPacket) * size == periods * size + c.samplesPerPacket * size;
    if n * c.samplesPerPacket >= periods + c.samplesPerPacket {
      MulMonotone(periods + c.samplesPerPacket, n * c.samplesPerPacket, size);
    }
  }

  // One frame: its packets' times, and that of what is left over.
  lemma FrameKeepsTods(c: AudioConfig, base: int, k: nat, w: Waiting, f: AudioFrame, delayNs: int,
                       early: nat, late: nat, i: nat)
    requires Audio.Valid(c) && IsAccepted(c, f) && |w.samples| < PayloadSize(c)
    requires IsShort(c, f)
    requires IsOnTime(c, base, k, FirstTime(w, f), early, late)
    ensures var packets := FramePackets(c, w, f, delayNs);
      var n, next := |packets|, AfterFrame(c, w, f, |packets|);
      && (i < n ==> IsOnTime(c, base - delayNs, k + i, packets[i].todNs, early + i + 1000, late))
      && (next.samples != [] ==> IsOnTime(c, base, k + n, next.todNs, early + n + 1000, late))
  {
    hide PayloadSize, IsOnTime, IsBehind, IsShort, FirstTime, Cut, Rest, TimesAfter, Audio.Valid;
    hide IsAccepted, AfterFrame;
    var first, packets := FirstTime(w, f), FramePackets(c, w, f, delayNs);
    var n, next := |packets|, AfterFrame(c, w, f, |packets|);
    CountsOfFrame(c, w, f, delayNs);
    hide FramePackets;
    FewPackets(c, |w.samples|, f, n);
    FrameTods(c, w, f, delayNs, i);
    if i < n {
      MulMonotone(i, n, c.samplesPerPacket);
      BehindIsNear(c, base, k, i, first, delayNs, packets[i].todNs, early, late);
    }
    if next.samples != [] {
      if packets == [] && w.samples != [] {
        WaitingIsFirst(w, f);
        MoreTime(c, base, k, next.todNs, early, early + n + 1000, late);
      } else {
        BehindIsNear(c, base, k, n, first, 0, next.todNs, early, late);
      }
    }
  }

  lemma WaitingIsFirst(w: Waiting, f: AudioFrame)
    requires w.samples != []
    ensures FirstTime(w, f) == w.todNs
  {
  }

  lemma CountsOfFrame(c: AudioConfig, w: Waiting, f: AudioFrame, delayNs: int)
    requires Audio.Valid(c) && IsAccepted(c, f)
    ensures var packets := FramePackets(c, w, f, delayNs);
      var next := AfterFrame(c, w, f, |packets|);
      && |packets| * PayloadSize(c) + |next.samples| == |w.samples| + f.numValidBytes
      && |next.samples| < PayloadSize(c)
  {
    hide PayloadSize, Cut, Rest, TimesAfter, Audio.Valid;
    var first := FirstOf(w, f);
    CutKeepsSamples(c, first.samples, first.rtpTime, first.todNs, 0, delayNs);
  }

  /**
   * Of frames timed one after the other, packet i of a run goes out i packets of samples after
   * base, less the delay, left-over samples included: never later than the frames are late, and
   * earlier by no more than a nanosecond a frame and a thousandth of one a packet.
   */
  lemma {:induction false} RunKeepsTods(c: AudioConfig, base: int, k: nat, w: Waiting,
                                        frames: seq<AudioFrame>, delayNs: int, early: nat,
                                        more: nat, late: nat, i: nat)
    requires Audio.Valid(c) && |w.samples| < PayloadSize(c)
    requires AreTimed(c, base, k * PayloadSize(c) + |w.samples|, frames, early, late)
    requires w.samples != [] ==> IsOnTime(c, base, k, w.todNs, early + more, late)
    ensures var packets := Run(c, w, frames, delayNs).0;
      i < |packets| ==>
        IsOnTime(c, base - delayNs, k + i, packets[i].todNs, early + more + 1000 * |frames| + i,
                 late)
    decreases |frames|
  {
    RunUnfolds(c, w, frames, delayNs);
    if frames != [] {
      var (packets, next) := FirstPackets(c, w, frames, delayNs);
      FirstKeepsTods(c, base, k, w, frames, delayNs, early, more, late, i);
      assert Run(c, w, frames, delayNs).0 == packets + Run(c, next, frames[1..], delayNs).0;
      hide IsOnTime, AreTimed, Run, FirstPackets, PayloadSize, Audio.Valid;
      var n := |packets|;
      var j := if i < n then 0 else i - n;
      RunKeepsTods(c, base, k + n, next, frames[1..], delayNs, early, more + n + 1000, late, j);
      JoinTimes(c, base - delayNs, k, packets, Run(c, next, frames[1..], delayNs).0, i,
                early + more + i + 1000, early + more + n + 1000 + 1000 * (|frames| - 1) + j,
                early + more + 1000 * |frames| + i, late);
    }
  }

  /** The packets of the first frame, none if it is refused, and what waits then. */
  function FirstPackets(c: AudioConfig, w: Waiting, frames: seq<AudioFrame>,
                        delayNs: int): (seq<AudioPacket>, Waiting)
    requires Audio.Valid(c) && frames != []
  {
    if !IsAccepted(c, frames[0]) then ([], w)
    else
      var packets := FramePackets(c, w, frames[0], delayNs);
      (packets, AfterFrame(c, w, frames[0], |packets|))
  }

  // The first frame's packets, and what the frames behind it start from.
  lemma FirstKeepsTods(c: AudioConfig, base: int, k: nat, w: Waiting, frames: seq<AudioFrame>,
                       delayNs: int, early: nat, more: nat, late: nat, i: nat)
    requires Audio.Valid(c) && |w.samples| < PayloadSize(c) && frames != []
    requires AreTimed(c, base, k * PayloadSize(c) + |w.samples|, frames, early, late)
    requires w.samples != [] ==> IsOnTime(c, base, k, w.todNs, early + more, late)
    ensures var (packets, next) := FirstPackets(c, w, frames, delayNs);
      var n := |packets|;
      && (i < n ==> IsOnTime(c, base - delayNs, k + i, packets[i].todNs, early + more + i + 1000,
                             late))
      && |next.samples| < PayloadSize(c)
      && AreTimed(c, base, (k + n) * PayloadSize(c) + |next.samples|, frames[1..], early, late)
      && (next.samples != [] ==>
            IsOnTime(c, base, k + n, next.todNs, early + (more + n + 1000), late))
  {
    FirstIsTimed(c, base, k, w, frames, delayNs, early, more, late);
    var f := frames[0];
    hide IsOnTime, AreTimed, FramePackets, AfterFrame, PayloadSize;
    if IsAccepted(c, f) {
      FrameKeepsTods(c, base, k, w, f, delayNs, early + more, late, i);
    } else if w.samples != [] {
      MoreTime(c, base, k, w.todNs, early + more, early + (more + 1000), late);
    }
  }

  lemma JoinTimes(c: AudioConfig, base: int, k: nat, a: seq<AudioPacket>, b: seq<AudioPacket>,
                  i: nat, first: nat, second: nat, all: nat, late: nat)
    requires first <= all && (i >= |a| ==> second <= all)
    requires i < |a| ==> IsOnTime(c, base, k + i, a[i].todNs, first, late)
    requires |a| <= i < |a| + |b| ==>
               IsOnTime(c, base, k + |a| + (i - |a|), b[i - |a|].todNs, second, late)
    ensures i < |a + b| ==> IsOnTime(c, base, k + i, (a + b)[i].todNs, all, late)
  {
    hide IsOnTime;
    if i < |a| {
      MoreTime(c, base, k + i, a[i].todNs, first, all, late);
    } else if i < |a + b| {
      assert k + |a| + (i - |a|) == k + i;
      MoreTime(c, base, k + i, b[i - |a|].todNs, second, all, late);
    }
  }

  // The first frame, and those behind it.
  lemma FirstIsTimed(c: AudioConfig, base: int, k: nat, w: Waiting, frames: seq<AudioFrame>,
                     delayNs: int, early: nat, more: nat, late: nat)
    requires Audio.Valid(c) && |w.samples| < PayloadSize(c) && frames != []
    requires AreTimed(c, base, k * PayloadSize(c) + |w.samples|, frames, early, late)
    requires w.samples != [] ==> IsOnTime(c, base, k, w.todNs, early + more, late)
    ensures var f, rest := frames[0], frames[1..];
      if !IsAccepted(c, f)
      then AreTimed(c, base, k * PayloadSize(c) + |w.samples|, rest, early, late)
      else
        var n := |FramePackets(c, w, f, delayNs)|;
        var next := AfterFrame(c, w, f, n);
        && IsOnTime(c, base, k, FirstTime(w, f), early + more, late)
        && IsShort(c, f) && |next.samples| < PayloadSize(c)
        && AreTimed(c, base, (k + n) * PayloadSize(c) + |next.samples|, rest, early, late)
  {
    hide HasTime, IsOnTime, IsShort, FramePackets, AfterFrame, PayloadSize, FirstTime;
    var f := frames[0];
    if IsAccepted(c, f) {
      FirstIsNear(c, base, k, w, f, early, more, late);
      CountsOfFrame(c, w, f, delayNs);
      Counts(k, |FramePackets(c, w, f, delayNs)|, PayloadSize(c));
    }
  }

  lemma FirstIsNear(c: AudioConfig, base: int, k: nat, w: Waiting, f: AudioFrame, early: nat,
                    more: nat, late: nat)
    requires Audio.Valid(c)
    requires w.samples != [] ==> IsOnTime(c, base, k, w.todNs, early + more, late)
    requires w.samples == [] ==>
               HasTime(c, base, k * PayloadSize(c) / c.bytesPerPeriod,
                       f.tod.seconds * 1_000_000_000 + f.tod.nanoseconds, early, late)
    ensures IsOnTime(c, base, k, FirstTime(w, f), early + more, late)
  {
    hide HasTime;
    if w.samples == [] {
      assert k * PayloadSize(c) == c.bytesPerPeriod * (k * c.samplesPerPacket);
      MultipleOf(c.bytesPerPeriod, k * c.samplesPerPacket);
      MoreTime(c, base, k, FirstTime(w, f), early, early + more, late);
    }
  }

  // ---------------------------------------------------------------- Left-overs

  /** A whole number of nanoseconds for n packets, that is exact just if a packet's time is. */
  predicate IsAdvance(c: AudioConfig, n: nat, ns: nat)
    requires c.sampleRate > 0
  {
    var exact, time := n * c.samplesPerPacket * 1_000_000_000, c.samplesPerPacket * 1_000_000_000_000;
    && ns * c.sampleRate <= exact
    && (ns * c.sampleRate == exact
        <==> time % c.sampleRate == 0 && n * (time / c.sampleRate) % 1000 == 0)
  }

  /**
   * Samples left over from a frame, behind others left over before it: their time goes on by whole
   * nanoseconds, never too many, and exactly by that of the packets in between if and only if a
   * packet takes whole thousandths of a nanosecond, and those packets whole nanoseconds.
   */
  lemma LeftOversGoOn(c: AudioConfig, w: Waiting, f: AudioFrame, delayNs: int)
    requires Audio.Valid(c) && IsAccepted(c, f) && IsShort(c, f)
    requires w.samples != [] && |w.samples| < PayloadSize(c)
    ensures var n := |FramePackets(c, w, f, delayNs)|;
      var next := AfterFrame(c, w, f, n);
      n > 0 && next.samples != [] ==>
        exists ns: nat :: IsAdvance(c, n, ns)
          && next.todNs == (w.todNs + ns) % 0x1_0000_0000_0000_0000
  {
    hide PayloadSize, NextRtpTime, Cut, Rest, TimesAfter, PacketTime, IsShort, IsAdvance;
    var first := FirstOf(w, f);
    var n := |FramePackets(c, w, f, delayNs)|;
    CountsOfFrame(c, w, f, delayNs);
    FewPackets(c, |w.samples|, f, n);
    OffsetAfter(c, n, first.rtpTime, 0);
    OffsetIsSmall(c, n);
    AdvanceIs(c, n);
    if n > 0 {
      var ns := n * PacketTime(c) / 1000;
      assert IsAdvance(c, n, ns);
    }
  }

  /** Two channels of 24 bits at 44.1 kHz, 48 samples to a packet. */
  const CD_RATE := AudioConfig(6, 48, 44_100)

  /** There every frame takes them too early by some more, as long as samples are left over. */
  lemma LeftOversDrift(w: Waiting, f: AudioFrame, delayNs: int)
    requires IsAccepted(CD_RATE, f) && IsShort(CD_RATE, f)
    requires w.samples != [] && |w.samples| < PayloadSize(CD_RATE)
    ensures var n := |FramePackets(CD_RATE, w, f, delayNs)|;
      var next := AfterFrame(CD_RATE, w, f, n);
      n > 0 && next.samples != [] ==>
        exists ns: nat :: IsAdvance(CD_RATE, n, ns)
          && ns * CD_RATE.sampleRate < n * CD_RATE.samplesPerPacket * 1_000_000_000
          && next.todNs == (w.todNs + ns) % 0x1_0000_0000_0000_0000
  {
    hide FramePackets, AfterFrame, IsAccepted, IsShort, PayloadSize;
    LeftOversGoOn(CD_RATE, w, f, delayNs);
  }

  lemma OffsetIsSmall(c: AudioConfig, n: nat)
    requires Audio.Valid(c)
    requires n * c.samplesPerPacket * 1_000_000_000_000 < W64 * c.sampleRate
    ensures 0 <= n * PacketTime(c) && (0 + n * PacketTime(c)) % W64 == n * PacketTime(c)
  {
    OffsetOf(c, n);
    var offset := n * PacketTime(c);
    MulMonotone(0, n, PacketTime(c));
    if offset >= W64 {
      MulMonotone(W64, offset, c.sampleRate);
    }
    SmallModulo64(offset);
  }

  lemma AdvanceIs(c: AudioConfig, n: nat)
    requires Audio.Valid(c)
    ensures 0 <= n * PacketTime(c) && (n > 0 ==> IsAdvance(c, n, n * PacketTime(c) / 1000))
  {
    MulMonotone(0, n, PacketTime(c));
    if n > 0 {
      WholeTimes(c.samplesPerPacket * 1_000_000_000_000, c.sampleRate, n, PacketTime(c));
      assert n * c.samplesPerPacket * 1_000_000_000 * 1000
          == n * (c.samplesPerPacket * 1_000_000_000_000);
    }
  }

  // n times a quotient in thousandths, cut to the whole.
  lemma WholeTimes(time: nat, rate: nat, n: nat, t: nat)
    requires rate > 0 && n > 0 && t == time / rate
    ensures 0 <= n * t
    ensures var d := n * t / 1000;
      d * rate * 1000 <= n * time
      && (d * rate * 1000 == n * time <==> time % rate == 0 && n * t % 1000 == 0)
  {
    MulMonotone(0, n, t);
    DivBounds(time, rate);
    var d := n * t / 1000;
    DivBounds(n * t, 1000);
    var rest, part := n * t % 1000, time % rate;
    assert time == t * rate + part && n * t == 1000 * d + rest;
    MulMonotone(0, rest, rate);
    MulMonotone(0, part, n);
    assert n * time == n * t * rate + n * part;
    assert n * t * rate == d * rate * 1000 + rest * rate;
    if rest > 0 {
      MulMonotone(1, rest, rate);
    }
    if part > 0 {
      MulMonotone(1, part, n);
    }
  }

  // ---------------------------------------------------------------- The packets as they are sent

  /**
   * What a receiver reads of packet i that is sent: when it leaves, its number and timestamp, and
   * the samples.
   */
  predicate IsReceived(s: seq<Byte>, n: Net, payloadType: int, ssrc: int, seqNum: nat, i: nat,
                       p: AudioPacket) {
    && Leaves(s, n, p.todNs, (n.ipIdentification + i) % 0x10000)
    && var payload := Parse(s).payload;
       && |payload| >= 12 && payload[12..] == p.samples
       && ReadRtp(payload) == Rtp(false, payloadType, (seqNum + i) % 0x10000, p.rtpTime, ssrc)
  }

  /** Packets as the sink gets them are read so, each in its turn. */
  lemma {:induction false} EncodedIsReceived(n: Net, payloadType: int, ssrc: int, seqNum: nat,
                                             packets: seq<AudioPacket>, i: nat)
    requires CanSend(n, payloadType, ssrc) && AreStamped(packets) && i < |packets|
    requires FitsNet(n, 12 + |packets[i].samples|)
    ensures var sent := Encoded(n, payloadType, ssrc, seqNum, packets);
      i < |sent| && IsReceived(sent[i], n, payloadType, ssrc, seqNum, i, packets[i])
    decreases |packets|
  {
    hide PacketBytes, UdpPayload, IsReceived, IsNet, IsAligned, FitsNet;
    FirstEncoded(n, payloadType, ssrc, seqNum, packets);
    var p := packets[0];
    if i == 0 {
      FirstIsReceived(n, payloadType, ssrc, seqNum, p);
    } else {
      var rest := packets[1..];
      SameRoom(n, 12 + |packets[i].samples|);
      EncodedIsReceived(AfterPacket(n), payloadType, ssrc, NumberAfter(seqNum, 1), rest, i - 1);
      hide Encoded;
      var s := Encoded(AfterPacket(n), payloadType, ssrc, NumberAfter(seqNum, 1), rest)[i - 1];
      NextIsReceived(s, n, payloadType, ssrc, seqNum, i, packets[i]);
    }
  }

  lemma FirstEncoded(n: Net, payloadType: int, ssrc: int, seqNum: nat, packets: seq<AudioPacket>)
    requires CanSend(n, payloadType, ssrc) && AreStamped(packets) && packets != []
    ensures CanSend(AfterPacket(n), payloadType, ssrc) && AreStamped(packets[1..])
    ensures packets[0].rtpTime < W32
    ensures Encoded(n, payloadType, ssrc, seqNum, packets)
         == [PacketBytes(n, UdpPayload(payloadType, ssrc, seqNum, packets[0].rtpTime,
                                       packets[0].samples), 0, packets[0].todNs)]
            + Encoded(AfterPacket(n), payloadType, ssrc, NumberAfter(seqNum, 1), packets[1..])
  {
    hide PacketBytes, UdpPayload;
  }

  lemma SameRoom(n: Net, size: nat)
    requires FitsNet(n, size)
    ensures FitsNet(AfterPacket(n), size)
  {
    assert PacketSize(AfterPacket(n), size) == PacketSize(n, size);
  }

  lemma FirstIsReceived(n: Net, payloadType: int, ssrc: int, seqNum: nat, p: AudioPacket)
    requires CanSend(n, payloadType, ssrc) && p.rtpTime < W32 && FitsNet(n, 12 + |p.samples|)
    ensures IsReceived(PacketBytes(n, UdpPayload(payloadType, ssrc, seqNum, p.rtpTime, p.samples),
                                   0, p.todNs),
                       n, payloadType, ssrc, seqNum, 0, p)
  {
    hide PacketBytes, RtpBytes, ReadRtp, Leaves, Parse, IsAligned;
    var rtp := Rtp(false, payloadType, seqNum % 0x10000, p.rtpTime, ssrc);
    var payload := UdpPayload(payloadType, ssrc, seqNum, p.rtpTime, p.samples);
    assert payload == RtpBytes(rtp) + p.samples;
    RtpRoundTrip(rtp, p.samples);
    PacketLeaves(n, payload, p.todNs);
    PacketRoundTrip(n, payload, 0, p.todNs);
  }

  lemma NextIsReceived(s: seq<Byte>, n: Net, payloadType: int, ssrc: int, seqNum: nat, i: nat,
                       p: AudioPacket)
    requires i > 0
    requires IsReceived(s, AfterPacket(n), payloadType, ssrc, NumberAfter(seqNum, 1), i - 1, p)
    ensures IsReceived(s, n, payloadType, ssrc, seqNum, i, p)
  {
    hide Parse, ReadFrame, FrameIn, ReadRtp;
    Counted(n.ipIdentification, i);
    NumberCounted(seqNum, i);
  }

  lemma NumberCounted(seqNum: nat, i: nat)
    requires i > 0
    ensures (NumberAfter(seqNum, 1) + (i - 1)) % 0x10000 == (seqNum + i) % 0x10000
  {
  }
}
