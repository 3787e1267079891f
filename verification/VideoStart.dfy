// Source/AvFifo/DtSt2110Video.c: what Configure and Start set a packetizer up with.

module VideoStart {
  import opened Arithmetic
  import opened Headers
  import opened NetPackets
  import opened VideoCut
  import opened VideoPacketizer
  import MediaTime
  import SharedRing
  import Transmitter

  const UDP_STANDARD: nat := 1460
  const UDP_JUMBO: nat := 8960
  const BLOCK_BYTES: nat := 180

  /** How packets are filled; payloadSize is -1 for the largest that fits. */
  datatype Packing = Packing(payloadSize: int, isBlock: bool, oneLinePerPacket: bool)

  datatype Payload = InvalidArg | Payload(size: nat)

  /** The largest payload of whole pixel groups, and in block mode of whole blocks. */
  function LargestPayload(pgroupBytes: nat, isBlock: bool): nat
    requires pgroupBytes > 0
  {
    var groups := (UDP_STANDARD - VIDEO_HEADERS) / pgroupBytes * pgroupBytes;
    if isBlock then groups / BLOCK_BYTES * BLOCK_BYTES else groups
  }

  function StartPayload(pgroupBytes: nat, packing: Packing, isVersion2: bool): (p: Payload)
    requires pgroupBytes > 0
    ensures p.Payload? ==>
              0 < p.size <= (if isVersion2 then UDP_JUMBO else UDP_STANDARD) - VIDEO_HEADERS
  {
    if packing.payloadSize != -1 then
      var size := packing.payloadSize;
      var max := (if isVersion2 then UDP_JUMBO else UDP_STANDARD) - VIDEO_HEADERS;
      if size <= 0 || size % pgroupBytes != 0 || size > max
         || (packing.isBlock && size % BLOCK_BYTES != 0)
      then InvalidArg else Payload(size)
    else
      var size := LargestPayload(pgroupBytes, packing.isBlock);
      LargestIsInRange(pgroupBytes, packing.isBlock);
      if size <= 0 then InvalidArg else Payload(size)
  }

  lemma LargestIsInRange(pgroupBytes: nat, isBlock: bool)
    requires pgroupBytes > 0
    ensures LargestPayload(pgroupBytes, isBlock) <= UDP_STANDARD - VIDEO_HEADERS
  {
    DivBounds(UDP_STANDARD - VIDEO_HEADERS, pgroupBytes);
  }

  /**
   * The payload that Start chooses is whole pixel groups if and only if the caller gave a
   * size, or does not ask for block packing, or the groups divide the seven blocks that a
   * packet has room for, or are as large as two blocks or more that end where they do.
   */
  lemma PayloadIsWholeGroups(pgroupBytes: nat, packing: Packing, isVersion2: bool)
    requires pgroupBytes > 0 && StartPayload(pgroupBytes, packing, isVersion2).Payload?
    ensures StartPayload(pgroupBytes, packing, isVersion2).size % pgroupBytes == 0
       <==> (packing.payloadSize != -1 || !packing.isBlock || BlocksHoldGroups(pgroupBytes))
  {
    GroupsAreWhole(pgroupBytes);
    hide LargestPayload, BlocksHoldGroups;
    if packing.payloadSize == -1 && packing.isBlock {
      BlocksAreGroups(pgroupBytes);
    }
  }

  lemma GroupsAreWhole(pgroupBytes: nat)
    requires pgroupBytes > 0
    ensures LargestPayload(pgroupBytes, false) % pgroupBytes == 0
  {
    MultipleOf(pgroupBytes, (UDP_STANDARD - VIDEO_HEADERS) / pgroupBytes);
  }

  /** The seven blocks of 1260 bytes, or fewer blocks of so large groups. */
  predicate BlocksHoldGroups(pgroupBytes: nat)
    requires pgroupBytes > 0
  {
    1260 % pgroupBytes == 0 || pgroupBytes in {360, 540, 720, 900, 1080}
  }

  lemma BlocksAreGroups(pgroupBytes: nat)
    requires pgroupBytes > 0 && LargestPayload(pgroupBytes, true) > 0
    ensures LargestPayload(pgroupBytes, true) % pgroupBytes == 0 <==> BlocksHoldGroups(pgroupBytes)
  {
    var room := UDP_STANDARD - VIDEO_HEADERS;
    var k := room / pgroupBytes;
    DivBounds(room, pgroupBytes);
    MulMonotone(0, k, pgroupBytes);
    if pgroupBytes <= 160 {
      assert LargestPayload(pgroupBytes, true) == 1260;
    } else {
      FewGroups(pgroupBytes, k);
    }
  }

  // Groups of which a packet holds no more than eight.
  lemma FewGroups(pgroupBytes: nat, k: nat)
    requires pgroupBytes > 160 && k * pgroupBytes <= 1420 < k * pgroupBytes + pgroupBytes
    ensures var size := k * pgroupBytes / BLOCK_BYTES * BLOCK_BYTES;
      size > 0 ==> (size % pgroupBytes == 0 <==> BlocksHoldGroups(pgroupBytes))
  {
  }

  /** Pixel groups that divide a block always do. */
  lemma BlocksAreWholeGroups(pgroupBytes: nat)
    requires pgroupBytes > 0 && BLOCK_BYTES % pgroupBytes == 0
    ensures LargestPayload(pgroupBytes, true) % pgroupBytes == 0
  {
    var groups := (UDP_STANDARD - VIDEO_HEADERS) / pgroupBytes * pgroupBytes;
    var blocks, k := groups / BLOCK_BYTES, BLOCK_BYTES / pgroupBytes;
    assert blocks * BLOCK_BYTES == pgroupBytes * (blocks * k) by {
      assert BLOCK_BYTES == pgroupBytes * k;
    }
    MultipleOf(pgroupBytes, blocks * k);
  }

  /** Pixel groups of eight bytes in block mode do not: a payload ends inside a group. */
  lemma BlocksCutGroups()
    ensures StartPayload(8, Packing(-1, true, false), false) == Payload(1260) && 1260 % 8 == 4
  {
  }

  // ---------------------------------------------------------------- Configuring

  datatype TxFormat = Bits10 | Bits8 | OtherFormat

  datatype Scanning = Progressive | Interlaced | SegmentedFrames

  datatype Ratio = Ratio(numerator: int, denominator: int)

  datatype VideoConfig = VideoConfig(format: TxFormat, width: int, height: int, rate: Ratio,
                                     scanning: Scanning)

  /** The rate of whole frames, the active part of their period and when packets start in it. */
  datatype Timing = Timing(rate: Ratio, active: Ratio, trOffsetNs: int)

  /** A set-up packetizer, but for its payload size, with its timing; or a refusal. */
  datatype Configured = Refused | Configured(config: TxConfig, timing: Timing)

  /** Where in the frame period the first packet goes, and how much of it is active video. */
  datatype Interval = Interval(part: nat, whole: nat, active: Ratio)

  function IntervalOf(v: VideoConfig): (s: Interval)
    ensures 0 < s.part < s.whole && s.active.numerator > 0 && s.active.denominator > 0
  {
    if v.scanning.Progressive? then
      if v.height >= 1080 then Interval(43, 1125, Ratio(1080, 1125))
      else Interval(28, 750, Ratio(1080, 1125))
    else if v.width == 720 && v.rate.numerator == 50 then Interval(26, 625, Ratio(576, 625))
    else if v.width == 720 then Interval(20, 525, Ratio(487, 525))
    else Interval(22, 1125, Ratio(1080, 1125))
  }

  /** The rate of frames, when that of fields is given. */
  function FrameRate(rate: Ratio, scanning: Scanning): Ratio {
    if scanning.Progressive? then rate else Ratio(rate.numerator, 2 * rate.denominator)
  }

  function PeriodFractionNs(rate: Ratio, part: nat, whole: nat): (ns: int)
    requires rate.numerator > 0 && rate.denominator > 0 && whole > 0
  {
    MulMonotone(1, rate.numerator, whole);
    var ns := MediaTime.MulAddDiv(NS_PER_SEC * part, rate.denominator, 0, rate.numerator * whole);
    if ns <= INT_MAX then ns else -1
  }

  function Configure(v: VideoConfig, packing: Packing): (r: Configured)
    ensures r.Configured? ==> r.timing.rate.numerator > 0 && r.timing.rate.denominator > 0
  {
    if v.rate.numerator <= 0 || v.rate.denominator <= 0 || v.width <= 0 || v.height <= 0
       || v.width % 2 != 0 || v.format.OtherFormat?
    then Refused
    else
      var pgroupBytes := if v.format.Bits10? then 5 else 4;
      var rate, s := FrameRate(v.rate, v.scanning), IntervalOf(v);
      var trOffsetNs := PeriodFractionNs(rate, s.part, s.whole);
      if trOffsetNs < 0 then Refused
      else
        Configured(TxConfig(v.height, v.width / 2 * pgroupBytes, pgroupBytes, 2,
                            packing.oneLinePerPacket, false, v.scanning.Interlaced?,
                            v.scanning.SegmentedFrames?, 0),
                   Timing(rate, s.active, trOffsetNs))
  }

  datatype RawConfig = RawConfig(pgroupBytes: int, pgroupPixels: int, rowSize: int, numRows: int,
                                 is420: bool, rate: Ratio, scanning: Scanning, active: Ratio,
                                 trOffsetNs: int)

  function ConfigureRaw(v: RawConfig, packing: Packing): (r: Configured)
    ensures r.Configured? ==> r.timing.rate.numerator > 0 && r.timing.rate.denominator > 0
  {
    if v.pgroupBytes <= 0 || v.pgroupPixels <= 0 || v.rowSize <= 0
       || v.rowSize % v.pgroupBytes != 0 || v.numRows <= 0 || v.rate.numerator <= 0
       || v.rate.denominator <= 0 || v.active.numerator < 0 || v.active.denominator <= 0
    then Refused
    else
      Configured(TxConfig(v.numRows, v.rowSize, v.pgroupBytes, v.pgroupPixels,
                          packing.oneLinePerPacket, v.is420, v.scanning.Interlaced?,
                          v.scanning.SegmentedFrames?, 0),
                 Timing(FrameRate(v.rate, v.scanning), v.active, v.trOffsetNs))
  }

  /** The configuration once Start has chosen the payload size. */
  function Started(config: TxConfig, packing: Packing, isVersion2: bool): (r: TxConfig)
    requires config.pgroupBytes > 0
    requires StartPayload(config.pgroupBytes, packing, isVersion2).Payload?
  {
    config.(payloadSize := StartPayload(config.pgroupBytes, packing, isVersion2).size)
  }

  /** What Configure and Start accept is a configuration of whole pixel groups. */
  lemma StartedIsValid(v: VideoConfig, packing: Packing, isVersion2: bool)
    requires var r := Configure(v, packing);
      r.Configured? && StartPayload(r.config.pgroupBytes, packing, isVersion2).Payload?
    ensures Valid(Started(Configure(v, packing).config, packing, isVersion2))
  {
    var pgroupBytes := Configure(v, packing).config.pgroupBytes;
    PayloadIsWholeGroups(pgroupBytes, packing, isVersion2);
    MultipleOf(pgroupBytes, v.width / 2);
    hide StartPayload;
    MulMonotone(1, v.width / 2, pgroupBytes);
  }

  /** With ConfigureRaw it may not be: it is just when the payload size is whole groups. */
  lemma RawStartedIsValid(v: RawConfig, packing: Packing, isVersion2: bool)
    requires var r := ConfigureRaw(v, packing);
      r.Configured? && StartPayload(r.config.pgroupBytes, packing, isVersion2).Payload?
    ensures Valid(Started(ConfigureRaw(v, packing).config, packing, isVersion2))
       <==> (packing.payloadSize != -1 || !packing.isBlock || BlocksHoldGroups(v.pgroupBytes))
  {
    PayloadIsWholeGroups(v.pgroupBytes, packing, isVersion2);
    hide BlocksHoldGroups;
    SizeIsPositive(v.pgroupBytes, packing, isVersion2);
    hide StartPayload;
  }

  lemma SizeIsPositive(pgroupBytes: nat, packing: Packing, isVersion2: bool)
    requires pgroupBytes > 0 && StartPayload(pgroupBytes, packing, isVersion2).Payload?
    ensures StartPayload(pgroupBytes, packing, isVersion2).size > 0
  {
  }

  /** Configure refuses, of rates and sizes that are, just those whose packets start late. */
  lemma ConfigureIsRefused(v: VideoConfig, packing: Packing)
    requires 0 < v.rate.numerator <= INT_MAX && 0 < v.rate.denominator <= INT_MAX
    ensures Configure(v, packing).Refused?
       <==> (v.width <= 0 || v.height <= 0 || v.width % 2 != 0 || v.format.OtherFormat?
             || var s := IntervalOf(v);
                NS_PER_SEC * s.part * FrameRate(v.rate, v.scanning).denominator
                >= (INT_MAX + 1) * (v.rate.numerator * s.whole))
  {
    var s, rate := IntervalOf(v), FrameRate(v.rate, v.scanning);
    OffsetIsExact(rate, s.part, s.whole);
    hide IntervalOf, FrameRate, PeriodFractionNs;
  }

  /** The transmit offset is the part of the period, rounded down, if an int holds it. */
  lemma OffsetIsExact(rate: Ratio, part: nat, whole: nat)
    requires 0 < rate.numerator && 0 < rate.denominator <= 2 * INT_MAX && 0 < part < whole
    ensures var ns, d := PeriodFractionNs(rate, part, whole), rate.numerator * whole;
      && (ns < 0 <==> NS_PER_SEC * part * rate.denominator >= (INT_MAX + 1) * d)
      && (ns >= 0 ==> ns * d <= NS_PER_SEC * part * rate.denominator < (ns + 1) * d)
  {
    IsUnderAPeriod(rate.numerator, rate.denominator, part, whole);
    QuotientFits(NS_PER_SEC * part * rate.denominator, rate.numerator * whole);
  }

  lemma IsUnderAPeriod(n: nat, period: nat, part: nat, whole: nat)
    requires 0 < n && period <= 2 * INT_MAX && part < whole
    ensures 0 < n * whole && NS_PER_SEC * part * period < W64 * (n * whole)
  {
    MulMonotone(period, 2 * INT_MAX, NS_PER_SEC * part);
    MulMonotone(1, n, whole);
  }

  lemma QuotientFits(a: nat, d: nat)
    requires 0 < d && a < W64 * d
    ensures var q := a / d;
      q < W64 && q % W64 == q && q * d <= a < (q + 1) * d && (q > INT_MAX <==> a >= (INT_MAX + 1) * d)
  {
    var q := a / d;
    DivBounds(a, d);
    if q >= W64 {
      MulMonotone(W64, q, d);
    }
    SmallModulo(q);
    if q <= INT_MAX {
      MulMonotone(q + 1, INT_MAX + 1, d);
    } else {
      MulMonotone(INT_MAX + 1, q, d);
    }
  }

  /** The offset is so many lines of the period of a frame, the active part so many of them. */
  predicate HasLines(t: Timing, lines: nat, active: nat, all: nat) {
    var period := 1_000_000_000 * t.rate.denominator;
    && 0 <= t.trOffsetNs && t.rate.numerator > 0
    && t.trOffsetNs * (t.rate.numerator * all) <= period * lines
    && period * lines < (t.trOffsetNs + 1) * (t.rate.numerator * all)
    && t.active.denominator > 0 && t.active.numerator * all == active * t.active.denominator
  }

  /**
   * Frames come at the rate that is configured, or two fields to a frame at that rate, and packets
   * start as SMPTE ST 2110-21, section 6.3, has it by default: in a progressive frame 43 of 1125 or
   * 28 of 750 lines behind its start, in an interlaced one 26 of 625, 20 of 525 or 22 of 1125.
   */
  lemma TimingIs(v: VideoConfig, packing: Packing)
    requires v.rate.denominator <= INT_MAX && Configure(v, packing).Configured?
    ensures var t, isTv := Configure(v, packing).timing, v.width == 720;
      && t.rate.numerator * v.rate.denominator * (if v.scanning.Progressive? then 1 else 2)
         == v.rate.numerator * t.rate.denominator
      && (v.scanning.Progressive? && v.height >= 1080 ==> HasLines(t, 43, 1080, 1125))
      && (v.scanning.Progressive? && v.height < 1080 ==> HasLines(t, 28, 720, 750))
      && (!v.scanning.Progressive? && isTv && v.rate.numerator == 50 ==> HasLines(t, 26, 576, 625))
      && (!v.scanning.Progressive? && isTv && v.rate.numerator != 50 ==> HasLines(t, 20, 487, 525))
      && (!v.scanning.Progressive? && !isTv ==> HasLines(t, 22, 1080, 1125))
  {
    var s := IntervalOf(v);
    RateIs(v, packing);
    hide Configure, HasLines;
    forall active: nat | s.active.numerator * s.whole == active * s.active.denominator
      ensures HasLines(Configure(v, packing).timing, s.part, active, s.whole)
    {
      LinesAre(v, packing, active);
    }
  }

  lemma LinesAre(v: VideoConfig, packing: Packing, active: nat)
    requires v.rate.denominator <= INT_MAX && Configure(v, packing).Configured?
    requires var s := IntervalOf(v); s.active.numerator * s.whole == active * s.active.denominator
    ensures HasLines(Configure(v, packing).timing, IntervalOf(v).part, active, IntervalOf(v).whole)
  {
    var timing, s := Configure(v, packing).timing, IntervalOf(v);
    ConfiguredIs(v, packing);
    hide Configure, IntervalOf;
    OffsetIsExact(timing.rate, s.part, s.whole);
    hide PeriodFractionNs;
    Reordered(1_000_000_000, s.part, timing.rate.denominator, 1);
  }

  lemma RateIs(v: VideoConfig, packing: Packing)
    requires Configure(v, packing).Configured?
    ensures var t := Configure(v, packing).timing;
      t.rate.numerator * v.rate.denominator * (if v.scanning.Progressive? then 1 else 2)
      == v.rate.numerator * t.rate.denominator
  {
    hide PeriodFractionNs, IntervalOf;
    var t := Configure(v, packing).timing;
    assert t.rate == FrameRate(v.rate, v.scanning);
  }

  /** The largest packet fits a pipe, when the pipe pads to no more than 4 KiB. */
  lemma MaxPacketFits(n: Net, payloadSize: nat)
    requires IsAligned(n.alignment) && n.alignment <= Transmitter.PAGE_BYTES
    requires payloadSize <= UDP_JUMBO - VIDEO_HEADERS
    ensures MaxPacket(n, payloadSize) <= SharedRing.MAX_PACKET
  {
    hide PacketSize;
    SizeHasRoom(n, VIDEO_HEADERS - UDP_HEADER_SIZE + payloadSize);
  }

  /**
   * At a data width of 96 bits, over IPv4 without a VLAN tag, a packet of the default payload
   * size with one row header is four bytes longer than its size has room for.
   */
  lemma DefaultPacketFallsShort(n: Net, pgroupBytes: nat)
    requires n.alignment == 96 / 8 && !HasVlan(n) && !n.ipV6 && pgroupBytes in {4, 5}
    ensures StartPayload(pgroupBytes, Packing(-1, false, false), false) == Payload(1420)
    ensures var payloadSize := RTP_HEADER_SIZE + ESN_SIZE + SRD_SIZE + 1420;
      NetHeaderSize(n) + payloadSize == 1500 && PacketSize(n, payloadSize) == 1496
  {
  }

  // ---------------------------------------------------------------- Pacing

  const PS_PER_SEC: nat := NS_PER_SEC * PS_PER_NS

  /**
   * The time between two packets, in picoseconds: the frame period shared out evenly, or with
   * a gap its active part. The period is a number of 64 bits.
   */
  function Spacing(timing: Timing, isGapped: bool, packets: nat): (ps: nat)
    requires Fits(timing, isGapped, packets)
  {
    DivisorIsPositive(timing, isGapped, packets);
    var period, d := Period(timing) % W64, packets * timing.rate.numerator;
    if isGapped
    then MediaTime.MulAddDiv(period, timing.active.numerator, 0, d * timing.active.denominator)
    else Evenly(period, d)
  }

  function Evenly(period: nat, d: nat): (ps: nat)
    requires d > 0
  {
    DivBounds(period, d);
    period / d
  }

  lemma DivisorIsPositive(timing: Timing, isGapped: bool, packets: nat)
    requires Fits(timing, isGapped, packets)
    ensures timing.rate.denominator > 0 && packets * timing.rate.numerator > 0
    ensures isGapped ==>
              && timing.active.numerator > 0
              && packets * timing.rate.numerator * timing.active.denominator > 0
  {
  }

  /** A frame's period, for so many frames a second as the rate's numerator. */
  function Period(timing: Timing): (ps: nat)
    requires timing.rate.denominator > 0
  {
    PS_PER_SEC * timing.rate.denominator
  }

  /** The part of the frame period that packets are spread over. */
  function Share(timing: Timing, isGapped: bool): Ratio {
    if isGapped then timing.active else Ratio(1, 1)
  }

  /** Rates are positive, and what is divided by is within 64 bits. */
  predicate Fits(timing: Timing, isGapped: bool, packets: nat) {
    && timing.rate.numerator > 0 && timing.rate.denominator > 0 && packets > 0
    && var s := Share(timing, isGapped);
    && 0 < s.numerator <= s.denominator
    && 0 < packets * timing.rate.numerator
    && 0 < packets * timing.rate.numerator * s.denominator < W64
  }

  /**
   * It is within 64 bits for any rate and number of packets that are ints; with a gap, for the
   * active parts that Configure chooses, up to 7.6 million packets a frame.
   */
  lemma DivisorFits(timing: Timing, isGapped: bool, packets: nat)
    requires 0 < timing.rate.numerator <= INT_MAX && timing.rate.denominator > 0
    requires 0 < packets <= INT_MAX
    requires isGapped ==> 0 < timing.active.numerator <= timing.active.denominator <= 1125
                          && packets <= 7_600_000
    ensures Fits(timing, isGapped, packets)
  {
    var n, d := timing.rate.numerator, Share(timing, isGapped).denominator;
    var most := if isGapped then 7_600_000 else INT_MAX;
    MulMonotone(packets, most, n);
    MulMonotone(n, INT_MAX, most);
    MulMonotone(1, packets, n);
    MulMonotone(packets * n, most * INT_MAX, d);
    MulMonotone(d, if isGapped then 1125 else 1, most * INT_MAX);
    MulMonotone(1, packets * n, d);
  }

  /** The packets of a frame go out within the part of its period that they are spread over. */
  ghost predicate IsWithin(timing: Timing, isGapped: bool, packets: nat)
    requires Fits(timing, isGapped, packets)
  {
    var s := Share(timing, isGapped);
    packets * Spacing(timing, isGapped, packets) * timing.rate.numerator * s.denominator
    <= Period(timing) * s.numerator
  }

  /** They fill it but for less than a picosecond a packet. */
  ghost predicate IsFilled(timing: Timing, isGapped: bool, packets: nat)
    requires Fits(timing, isGapped, packets)
  {
    var s := Share(timing, isGapped);
    Period(timing) * s.numerator
    < packets * (Spacing(timing, isGapped, packets) + 1) * timing.rate.numerator * s.denominator
  }

  /**
   * The packets of a frame go out within the part of its period that they are spread over, and
   * they fill it but for the rounding if and only if the period's picoseconds, for as many
   * frames as the rate's numerator, are within 64 bits.
   */
  lemma PacingFillsThePeriod(timing: Timing, isGapped: bool, packets: nat)
    requires Fits(timing, isGapped, packets)
    ensures IsWithin(timing, isGapped, packets)
    ensures IsFilled(timing, isGapped, packets) <==> Period(timing) < W64
  {
    SpacingIs(timing, isGapped, packets);
    hide Spacing, Fits, Share, Period;
    var s := Share(timing, isGapped);
    Divided(Period(timing) % W64 * s.numerator, packets, timing.rate.numerator, s.denominator);
    WrapIsLost(Period(timing), s.numerator, packets, Spacing(timing, isGapped, packets),
               timing.rate.numerator, s.denominator);
  }

  // What is cut off of a period that is too large is more than the rounding.
  lemma WrapIsLost(period: nat, n: nat, packets: nat, spacing: nat, rate: nat, d: nat)
    requires 0 < n && packets * rate * d < W64
    requires packets * spacing * rate * d <= period % W64 * n
             < packets * (spacing + 1) * rate * d
    ensures packets * spacing * rate * d <= period * n
    ensures period * n < packets * (spacing + 1) * rate * d <==> period < W64
  {
    DivBounds(period, W64);
    var low := period % W64;
    Reordered(packets, spacing, rate, d);
    Reordered(packets, spacing + 1, rate, d);
    var b := packets * rate * d;
    assert b * (spacing + 1) == b * spacing + b;
    MulMonotone(low, period, n);
    if period < W64 {
      SmallModulo(period);
    } else {
      MulMonotone(low + W64, period, n);
      MulMonotone(1, n, W64);
      assert (low + W64) * n == low * n + W64 * n;
    }
  }

  lemma SmallModulo(x: nat)
    requires x < W64
    ensures x % W64 == x
  {
  }

  lemma SpacingIs(timing: Timing, isGapped: bool, packets: nat)
    requires Fits(timing, isGapped, packets)
    ensures var s := Share(timing, isGapped);
      && s.denominator > 0 && s.numerator > 0
      && 0 < packets * timing.rate.numerator * s.denominator < W64
      && Spacing(timing, isGapped, packets)
         == Period(timing) % W64 * s.numerator
            / (packets * timing.rate.numerator * s.denominator)
  {
    hide Period, MediaTime.MulAddDiv;
    if isGapped {
      SpacingWithGap(timing, packets);
    } else {
      assert Period(timing) % W64 * 1 == Period(timing) % W64;
      assert packets * timing.rate.numerator * 1 == packets * timing.rate.numerator;
    }
    hide Spacing;
  }

  lemma SpacingWithGap(timing: Timing, packets: nat)
    requires Fits(timing, true, packets)
    ensures 0 < packets * timing.rate.numerator * timing.active.denominator
    ensures Spacing(timing, true, packets)
         == Period(timing) % W64 * timing.active.numerator
            / (packets * timing.rate.numerator * timing.active.denominator)
  {
    var period, d, share := Period(timing) % W64, packets * timing.rate.numerator, timing.active;
    QuotientIsSmall(period, share.numerator, d * share.denominator, d, share.denominator);
    QuotientIs(period, share.numerator, d * share.denominator);
    hide Period, MediaTime.MulAddDiv;
  }

  lemma QuotientIs(a: nat, b: nat, d: nat)
    requires d > 0 && a * b / d < W64
    ensures MediaTime.MulAddDiv(a, b, 0, d) == a * b / d
  {
    SmallModulo(a * b / d);
  }

  lemma Divided(a: nat, packets: nat, n: nat, d: nat)
    requires packets * n * d > 0
    ensures var q := a / (packets * n * d);
      packets * q * n * d <= a < packets * (q + 1) * n * d
  {
    var b := packets * n * d;
    var q := a / b;
    DivBounds(a, b);
    Reordered(packets, q, n, d);
    Reordered(packets, q + 1, n, d);
    assert b * (q + 1) == b * q + b;
  }

  lemma Reordered(p: nat, x: nat, n: nat, d: nat)
    ensures p * x * n * d == p * n * d * x
  {
    assert p * x * n == p * n * x;
    assert p * n * x * d == p * n * d * x;
  }

  lemma QuotientIsSmall(period: nat, n: nat, b: nat, d: nat, share: nat)
    requires n <= share && 0 < d && 0 < share && b == d * share && period < W64
    ensures b > 0 && period * n / b < W64
  {
    MulMonotone(1, d, share);
    MulMonotone(n, b, period);
    DivBounds(period * n, b);
    if period * n / b >= W64 {
      MulMonotone(W64, period * n / b, b);
      MulMonotone(period + 1, W64, b);
    }
  }

  /** A rate that Configure accepts, 50 frames a second, of which the period is too large. */
  const WIDE_RATE := Ratio(1_000_000_000, 20_000_000)

  /** Its packets, however many a frame has, take less than a tenth of the period. */
  lemma WideRateFallsShort(packing: Packing, packets: nat)
    requires 0 < packets <= INT_MAX
    ensures var r := Configure(VideoConfig(Bits10, 1920, 1080, WIDE_RATE, Progressive), packing);
      && r.Configured? && Fits(r.timing, false, packets) && !IsFilled(r.timing, false, packets)
      && packets * Spacing(r.timing, false, packets) * WIDE_RATE.numerator * 10 < Period(r.timing)
  {
    var v := VideoConfig(Bits10, 1920, 1080, WIDE_RATE, Progressive);
    ConfigureIsRefused(v, packing);
    var timing := Configure(v, packing).timing;
    assert timing.rate == WIDE_RATE;
    hide Configure;
    DivisorFits(timing, false, packets);
    hide Fits;
    PacingFillsThePeriod(timing, false, packets);
    TenthOfWide(timing, packets);
  }

  // Of 2 * 10^19 picoseconds what is left after the wrap is shared out.
  lemma TenthOfWide(timing: Timing, packets: nat)
    requires timing.rate == WIDE_RATE && Fits(timing, false, packets)
    ensures packets * Spacing(timing, false, packets) * WIDE_RATE.numerator * 10 < Period(timing)
  {
    SpacingIs(timing, false, packets);
    hide Spacing, Fits;
    var q := Spacing(timing, false, packets);
    Divided(Period(timing) % W64, packets, WIDE_RATE.numerator, 1);
  }

  /** With a gap, all packets of a frame go out before its period is over, offset included. */
  lemma GapEndsInThePeriod(v: VideoConfig, packing: Packing, packets: nat)
    requires v.rate.numerator <= INT_MAX && v.rate.denominator <= INT_MAX
    requires Configure(v, packing).Configured? && Fits(Configure(v, packing).timing, true, packets)
    ensures var timing := Configure(v, packing).timing;
      (timing.trOffsetNs * PS_PER_NS + packets * Spacing(timing, true, packets))
      * timing.rate.numerator < Period(timing)
  {
    var timing, s := Configure(v, packing).timing, IntervalOf(v);
    ConfiguredIs(v, packing);
    hide Configure, IntervalOf;
    OffsetIsExact(timing.rate, s.part, s.whole);
    PacingFillsThePeriod(timing, true, packets);
    assert Period(timing) == PS_PER_SEC * timing.rate.denominator;
    hide Spacing, Fits, PeriodFractionNs, Period;
    Together(s, timing.trOffsetNs, timing.rate.numerator, timing.rate.denominator, packets,
             Spacing(timing, true, packets));
  }

  lemma ConfiguredIs(v: VideoConfig, packing: Packing)
    requires v.rate.denominator <= INT_MAX && Configure(v, packing).Configured?
    ensures var timing, s := Configure(v, packing).timing, IntervalOf(v);
      && 0 < timing.rate.numerator && 0 < timing.rate.denominator <= 2 * INT_MAX
      && 0 <= timing.trOffsetNs == PeriodFractionNs(timing.rate, s.part, s.whole)
      && timing.active == s.active && 0 < s.active.numerator <= s.active.denominator
  {
    hide PeriodFractionNs;
  }

  // With the numbers it is made of.
  lemma Together(s: Interval, offset: nat, n: nat, period: nat, packets: nat, spacing: nat)
    requires exists v: VideoConfig :: s == IntervalOf(v)
    requires period > 0 && offset * (n * s.whole) <= NS_PER_SEC * s.part * period
    requires packets * spacing * n * s.active.denominator
          <= PS_PER_SEC * period * s.active.numerator
    ensures (offset * PS_PER_NS + packets * spacing) * n < PS_PER_SEC * period
  {
    OffsetAndShare(s, offset, n, period, packets * spacing * n);
    hide IntervalOf;
    assert (offset * PS_PER_NS + packets * spacing) * n
        == offset * PS_PER_NS * n + packets * spacing * n;
    assert offset * PS_PER_NS * n == offset * n * PS_PER_NS;
  }

  // The offset and the active part together are less than the period.
  lemma OffsetAndShare(s: Interval, offset: nat, n: nat, period: nat, sent: nat)
    requires exists v: VideoConfig :: s == IntervalOf(v)
    requires period > 0 && offset * (n * s.whole) <= NS_PER_SEC * s.part * period
    requires sent * s.active.denominator <= PS_PER_SEC * period * s.active.numerator
    ensures offset * n * PS_PER_NS + sent < PS_PER_SEC * period
  {
    var x := offset * n;
    assert x * s.whole == offset * (n * s.whole);
  }
}
