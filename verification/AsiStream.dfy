// Source/Ts/DtTsTrp.c: the packets a card receives ASI into, and what is scanned of them.

module AsiStream {
  import opened Bytes
  import opened EthIp

  const TRP_SIZE: nat := 216
  const MAX_OUTPUT_BYTES: nat := 216
  const NUM_SYNC: nat := 3
  const AT_PAYLOAD: nat := 8
  const AT_SYNC: nat := 212
  const AT_VALID: nat := 213
  const AT_SEQUENCE: nat := 214
  const TRP_DATA_SIZE: nat := 208

  datatype TsMode = St188 | St204 | StMp2 | StRaw | StTrp
  datatype Stamp = NoStamp | Stamp32 | StampTod
  datatype Mode = Mode(ts: TsMode, stamp: Stamp)

  // ---------------------------------------------------------------- One packet

  /** What a transparent packet decodes to; a dropped packet is one of no bytes. */
  datatype Decoded = NotInSync | Output(bytes: seq<Byte>)

  predicate ValidCountFits(ts: TsMode, valid: int) {
    if ts.StTrp? || ts.StRaw? then valid <= 204 else valid == 188 || valid == 204
  }

  predicate HasSyncNibble(b: Byte) {
    Value(b) / 16 == 5
  }

  function PayloadBytes(ts: TsMode, valid: nat): nat {
    match ts
    case St188 => 188
    case StTrp => TRP_DATA_SIZE
    case _ => valid
  }

  /** A packet's time of day in periods of 54 MHz. */
  function Ticks(packet: seq<Byte>): nat
    requires |packet| == TRP_SIZE
  {
    (ReadLe(packet[..4]) * 54_000_000 + ReadLe(packet[4..8]) * 54 / 1000) % 0x1_0000_0000
  }

  function Decode(mode: Mode, packet: seq<Byte>): (r: Decoded)
    requires |packet| == TRP_SIZE
    ensures r.Output? ==> |r.bytes| <= MAX_OUTPUT_BYTES
  {
    var lacksPacketSync := Value(packet[AT_SYNC]) / 8 % 2 == 0;
    var valid := Value(packet[AT_VALID]);
    if !HasSyncNibble(packet[AT_SYNC]) || !ValidCountFits(mode.ts, valid) then NotInSync
    else if lacksPacketSync && !mode.ts.StRaw? && !mode.ts.StTrp? then Output([])
    else
      var n := PayloadBytes(mode.ts, valid);
      var zeros: seq<Byte> := if mode.ts.St204? && valid == 188 then seq(16, _ => 0) else [];
      Output(match mode.stamp
             case NoStamp => packet[AT_PAYLOAD..AT_PAYLOAD + n] + zeros
             case Stamp32 => WriteLe(Ticks(packet), 4) + packet[AT_PAYLOAD..AT_PAYLOAD + n] + zeros
             case StampTod => packet[..AT_PAYLOAD + n] + zeros)
  }

  // ---------------------------------------------------------------- Finding the stream

  /** Trailers of packets in a row, with consecutive sequence numbers, from position pos on. */
  predicate IsRun(ts: TsMode, buf: seq<Byte>, pos: nat)
    requires pos + TRP_SIZE * NUM_SYNC <= |buf|
  {
    && HasSyncNibble(buf[pos]) && Value(buf[pos + 1]) <= 204
    && IsNext(ts, buf, pos, 1) && IsNext(ts, buf, pos, 2)
  }

  predicate IsNext(ts: TsMode, buf: seq<Byte>, pos: nat, i: nat)
    requires i < NUM_SYNC && pos + TRP_SIZE * NUM_SYNC <= |buf|
  {
    var at := pos + i * TRP_SIZE;
    && HasSyncNibble(buf[at]) && ValidCountFits(ts, Value(buf[at + 1]))
    && ReadLe(buf[at + 2..at + 4]) == (ReadLe(buf[pos + 2..pos + 4]) + i) % 0x10000
  }

  datatype Found = NotFound | Found(offset: nat)

  /** Where a whole packet starts in buf, looking from position pos on. */
  function FindSync(ts: TsMode, buf: seq<Byte>, pos: nat): (r: Found)
    ensures r.Found? ==> r.offset + TRP_SIZE * (NUM_SYNC - 1) <= |buf|
    decreases |buf| - pos
  {
    if pos + TRP_SIZE * NUM_SYNC > |buf| then NotFound
    else if IsRun(ts, buf, pos) then
      Found(StartOf(pos))
    else FindSync(ts, buf, pos + 1)
  }

  /** The packet whose trailer starts at a position, or the one after it. */
  function StartOf(pos: nat): nat {
    if pos >= AT_SYNC then pos - AT_SYNC else pos + (TRP_SIZE - AT_SYNC)
  }

  /** The search finds the first run of trailers there is, and none only when there is none. */
  lemma {:induction false} FirstRunIsFound(ts: TsMode, buf: seq<Byte>, pos: nat)
    ensures match FindSync(ts, buf, pos)
            case NotFound =>
              forall p: nat | pos <= p && p + TRP_SIZE * NUM_SYNC <= |buf| :: !IsRun(ts, buf, p)
            case Found(offset) =>
              exists p: nat | pos <= p && p + TRP_SIZE * NUM_SYNC <= |buf| ::
                && IsRun(ts, buf, p) && offset == StartOf(p)
                && forall q: nat | pos <= q < p :: !IsRun(ts, buf, q)
    decreases |buf| - pos
  {
    hide IsRun;
    if pos + TRP_SIZE * NUM_SYNC <= |buf| && !IsRun(ts, buf, pos) {
      FirstRunIsFound(ts, buf, pos + 1);
      match FindSync(ts, buf, pos)
      case NotFound =>
      case Found(offset) =>
        var p: nat :| pos + 1 <= p && p + TRP_SIZE * NUM_SYNC <= |buf| && IsRun(ts, buf, p)
                      && offset == StartOf(p)
                      && forall q: nat | pos + 1 <= q < p :: !IsRun(ts, buf, q);
        assert forall q: nat | pos <= q < p :: !IsRun(ts, buf, q);
    }
  }

  // ---------------------------------------------------------------- What was scanned

  /** Bytes that a scan passed over, from a position in the stream on. */
  datatype Skip = Skip(position: nat, bytes: nat)

  function PacketAt(stream: seq<Byte>, pos: nat): (p: seq<Byte>)
    requires pos + TRP_SIZE <= |stream|
    ensures |p| == TRP_SIZE
  {
    stream[pos..pos + TRP_SIZE]
  }

  /** From pos to end, the stream is skips, in order, and packets in sync. */
  ghost predicate IsWalk(mode: Mode, stream: seq<Byte>, pos: nat, end: nat, skips: seq<Skip>)
    decreases end - pos, |skips|
  {
    if pos == end then skips == []
    else if skips != [] && skips[0].position == pos then
      skips[0].bytes > 0 && pos + skips[0].bytes <= end
      && IsWalk(mode, stream, pos + skips[0].bytes, end, skips[1..])
    else
      pos + TRP_SIZE <= end <= |stream| && Decode(mode, PacketAt(stream, pos)).Output?
      && IsWalk(mode, stream, pos + TRP_SIZE, end, skips)
  }

  /** What the packets between the skips decode to. */
  ghost function WalkOutput(mode: Mode, stream: seq<Byte>, pos: nat, end: nat,
                            skips: seq<Skip>): seq<Byte>
    requires IsWalk(mode, stream, pos, end, skips)
    decreases end - pos, |skips|
  {
    if pos == end then []
    else if skips != [] && skips[0].position == pos then
      WalkOutput(mode, stream, pos + skips[0].bytes, end, skips[1..])
    else
      Decode(mode, PacketAt(stream, pos)).bytes
      + WalkOutput(mode, stream, pos + TRP_SIZE, end, skips)
  }

  /** A packet scanned adds its output at the end. */
  lemma {:induction false} WalkPacket(mode: Mode, stream: seq<Byte>, pos: nat, end: nat,
                                      skips: seq<Skip>)
    requires IsWalk(mode, stream, pos, end, skips) && pos <= end
    requires end + TRP_SIZE <= |stream| && Decode(mode, PacketAt(stream, end)).Output?
    ensures IsWalk(mode, stream, pos, end + TRP_SIZE, skips)
    ensures WalkOutput(mode, stream, pos, end + TRP_SIZE, skips)
         == WalkOutput(mode, stream, pos, end, skips) + Decode(mode, PacketAt(stream, end)).bytes
    decreases end - pos
  {
    hide Decode, PacketAt;
    if pos < end {
      if skips != [] && skips[0].position == pos {
        WalkPacket(mode, stream, pos + skips[0].bytes, end, skips[1..]);
      } else {
        WalkPacket(mode, stream, pos + TRP_SIZE, end, skips);
      }
    }
  }

  /** The skips after passing over more bytes at the end: the last one grows, or a new one. */
  function MoreSkipped(skips: seq<Skip>, end: nat, bytes: nat): seq<Skip> {
    if skips != [] && skips[|skips| - 1].position + skips[|skips| - 1].bytes == end
    then skips[..|skips| - 1] + [Skip(skips[|skips| - 1].position, skips[|skips| - 1].bytes + bytes)]
    else skips + [Skip(end, bytes)]
  }

  /** Passing over bytes adds nothing to the output. */
  lemma {:induction false} WalkSkip(mode: Mode, stream: seq<Byte>, pos: nat, end: nat,
                                    skips: seq<Skip>, bytes: nat)
    requires IsWalk(mode, stream, pos, end, skips) && pos <= end && bytes > 0
    requires end + bytes <= |stream|
    ensures IsWalk(mode, stream, pos, end + bytes, MoreSkipped(skips, end, bytes))
    ensures WalkOutput(mode, stream, pos, end + bytes, MoreSkipped(skips, end, bytes))
         == WalkOutput(mode, stream, pos, end, skips)
    decreases end - pos
  {
    hide Decode, PacketAt;
    var more := MoreSkipped(skips, end, bytes);
    if pos == end {
      assert more == [Skip(end, bytes)] && more[1..] == [];
    } else if skips != [] && skips[0].position == pos {
      var next := pos + skips[0].bytes;
      WalkSkip(mode, stream, next, end, skips[1..], bytes);
      if |skips| == 1 && next == end {
        assert more == [Skip(pos, skips[0].bytes + bytes)] && more[1..] == [];
      } else {
        OthersGrow(skips, end, bytes);
      }
    } else {
      WalkSkip(mode, stream, pos + TRP_SIZE, end, skips, bytes);
      FirstSkipIsAhead(mode, stream, pos + TRP_SIZE, end, skips);
    }
  }

  lemma OthersGrow(skips: seq<Skip>, end: nat, bytes: nat)
    requires skips != []
    requires |skips| > 1 || skips[0].position + skips[0].bytes != end
    ensures MoreSkipped(skips, end, bytes) == [skips[0]] + MoreSkipped(skips[1..], end, bytes)
  {
  }

  lemma {:induction false} FirstSkipIsAhead(mode: Mode, stream: seq<Byte>, pos: nat, end: nat,
                                            skips: seq<Skip>)
    requires IsWalk(mode, stream, pos, end, skips) && pos <= end
    ensures skips != [] ==> skips[0].position >= pos && end > pos
    decreases end - pos
  {
    hide Decode, PacketAt;
    if pos < end && !(skips != [] && skips[0].position == pos) {
      FirstSkipIsAhead(mode, stream, pos + TRP_SIZE, end, skips);
    }
  }

  /** Only what has been scanned matters. */
  lemma {:induction false} WalkOfMore(mode: Mode, stream: seq<Byte>, more: seq<Byte>, pos: nat,
                                      end: nat, skips: seq<Skip>)
    requires IsWalk(mode, stream, pos, end, skips) && pos <= end <= |stream| && stream <= more
    ensures IsWalk(mode, more, pos, end, skips)
    ensures WalkOutput(mode, more, pos, end, skips) == WalkOutput(mode, stream, pos, end, skips)
    decreases end - pos
  {
    hide Decode;
    if pos < end {
      if skips != [] && skips[0].position == pos {
        WalkOfMore(mode, stream, more, pos + skips[0].bytes, end, skips[1..]);
      } else {
        assert PacketAt(stream, pos) == PacketAt(more, pos);
        WalkOfMore(mode, stream, more, pos + TRP_SIZE, end, skips);
      }
    }
  }

  // ---------------------------------------------------------------- A whole scan

  const FIFO_SIZE: nat := 8 * 1024 * 1024
  const SEARCH_SIZE: nat := 64 * 1024

  /** Where a scan ends, whether in sync, the output it counts, and whether any was dropped. */
  datatype Scan = Scan(pos: nat, outOfSync: bool, output: seq<Byte>, isOverflow: bool)

  /** A scan from a position to end, with so many bytes counted before. */
  function ScanFrom(mode: Mode, stream: seq<Byte>, end: nat, pos: nat, outOfSync: bool,
                    count: nat): Scan
    requires pos <= end <= |stream|
    decreases end - pos, outOfSync
  {
    if !outOfSync then
      if end - pos < TRP_SIZE then Scan(pos, false, [], false)
      else
        match Decode(mode, PacketAt(stream, pos))
        case NotInSync => ScanFrom(mode, stream, end, pos + 1, true, count)
        case Output(bytes) =>
          if count + |bytes| > FIFO_SIZE then
            ScanFrom(mode, stream, end, pos + TRP_SIZE, false, count).(isOverflow := true)
          else
            Before(bytes, ScanFrom(mode, stream, end, pos + TRP_SIZE, false, count + |bytes|))
    else if end - pos < TRP_SIZE * NUM_SYNC then Scan(pos, true, [], false)
    else
      var size := SearchSize(end - pos);
      match FindSync(mode.ts, stream[pos..pos + size], 0)
      case Found(offset) => ScanFrom(mode, stream, end, pos + offset, false, count)
      case NotFound =>
        ScanFrom(mode, stream, end, pos + size - TRP_SIZE * NUM_SYNC + 1, true, count)
  }

  function SearchSize(available: nat): nat {
    if available < SEARCH_SIZE then available else SEARCH_SIZE
  }

  function Before(bytes: seq<Byte>, s: Scan): Scan {
    s.(output := bytes + s.output)
  }

  // The first step of a scan.
  lemma ScanUnfolds(mode: Mode, stream: seq<Byte>, end: nat, pos: nat, outOfSync: bool, count: nat)
    requires pos <= end <= |stream|
    ensures var s := ScanFrom(mode, stream, end, pos, outOfSync, count);
      if !outOfSync then
        if end - pos < TRP_SIZE then s == Scan(pos, false, [], false)
        else
          match Decode(mode, PacketAt(stream, pos))
          case NotInSync => s == ScanFrom(mode, stream, end, pos + 1, true, count)
          case Output(bytes) =>
            if count + |bytes| > FIFO_SIZE then
              s == ScanFrom(mode, stream, end, pos + TRP_SIZE, false, count).(isOverflow := true)
            else
              s == Before(bytes, ScanFrom(mode, stream, end, pos + TRP_SIZE, false, count + |bytes|))
      else if end - pos < TRP_SIZE * NUM_SYNC then s == Scan(pos, true, [], false)
      else
        var size := SearchSize(end - pos);
        match FindSync(mode.ts, stream[pos..pos + size], 0)
        case Found(offset) => s == ScanFrom(mode, stream, end, pos + offset, false, count)
        case NotFound =>
          s == ScanFrom(mode, stream, end, pos + size - TRP_SIZE * NUM_SYNC + 1, true, count)
  {
    hide Decode, FindSync, PacketAt;
  }

  // A search leaves a scan that comes to the same.
  lemma SearchGoesOn(mode: Mode, stream: seq<Byte>, end: nat, pos: nat, count: nat, next: nat,
                     outOfSync: bool)
    requires pos + TRP_SIZE * NUM_SYNC <= end <= |stream|
    requires match FindSync(mode.ts, stream[pos..pos + SearchSize(end - pos)], 0)
             case Found(offset) => !outOfSync && next == pos + offset
             case NotFound =>
               outOfSync && next == pos + SearchSize(end - pos) - TRP_SIZE * NUM_SYNC + 1
    ensures next <= end
    ensures ScanFrom(mode, stream, end, pos, true, count)
         == ScanFrom(mode, stream, end, next, outOfSync, count)
  {
    ScanUnfolds(mode, stream, end, pos, true, count);
    hide FindSync, ScanFrom;
  }

  /** What becomes of a packet. */
  ghost predicate IsScannedTo(mode: Mode, stream: seq<Byte>, pos: nat, count: nat, next: nat,
                              outOfSync: bool, nextCount: nat, before: seq<Byte>,
                              after: seq<Byte>, hadOverflow: bool, hasOverflow: bool)
    requires pos + TRP_SIZE <= |stream|
  {
    match Decode(mode, PacketAt(stream, pos))
    case NotInSync =>
      outOfSync && next == pos + 1 && nextCount == count && after == before
      && hasOverflow == hadOverflow
    case Output(bytes) =>
      && !outOfSync && next == pos + TRP_SIZE
      && if count + |bytes| > FIFO_SIZE
         then nextCount == count && after == before && hasOverflow
         else nextCount == count + |bytes| && after == before + bytes && hasOverflow == hadOverflow
  }

  // So does a packet, with what is counted of it.
  lemma PacketGoesOn(mode: Mode, stream: seq<Byte>, end: nat, pos: nat, count: nat, next: nat,
                     outOfSync: bool, nextCount: nat, before: seq<Byte>, after: seq<Byte>,
                     hadOverflow: bool, hasOverflow: bool)
    requires pos + TRP_SIZE <= end <= |stream|
    requires IsScannedTo(mode, stream, pos, count, next, outOfSync, nextCount, before, after,
                         hadOverflow, hasOverflow)
    ensures next <= end
    ensures IsGoingOn(ScanFrom(mode, stream, end, pos, false, count),
                      ScanFrom(mode, stream, end, next, outOfSync, nextCount), before, after,
                      hadOverflow, hasOverflow)
  {
    ScanUnfolds(mode, stream, end, pos, false, count);
    hide Decode, PacketAt, ScanFrom;
    if Decode(mode, PacketAt(stream, pos)).Output? {
      var bytes := Decode(mode, PacketAt(stream, pos)).bytes;
      if count + |bytes| <= FIFO_SIZE {
        var now := ScanFrom(mode, stream, end, pos + TRP_SIZE, false, count + |bytes|);
        assert before + (bytes + now.output) == before + bytes + now.output;
      }
    }
  }

  /** A scan comes to the same, with what it has counted and dropped so far. */
  ghost predicate IsGoingOn(was: Scan, now: Scan, before: seq<Byte>, after: seq<Byte>,
                            hadOverflow: bool, hasOverflow: bool) {
    && was.pos == now.pos && was.outOfSync == now.outOfSync
    && before + was.output == after + now.output
    && (hadOverflow || was.isOverflow) == (hasOverflow || now.isOverflow)
  }

  /** Whether so many packets are all in sync. */
  predicate AreInSync(mode: Mode, stream: seq<Byte>, pos: nat, packets: nat)
    requires pos + packets * TRP_SIZE <= |stream|
    decreases packets
  {
    packets == 0
    || (Decode(mode, PacketAt(stream, pos)).Output?
        && AreInSync(mode, stream, pos + TRP_SIZE, packets - 1))
  }

  /** What so many packets decode to. */
  function OutputOf(mode: Mode, stream: seq<Byte>, pos: nat, packets: nat): seq<Byte>
    requires pos + packets * TRP_SIZE <= |stream| && AreInSync(mode, stream, pos, packets)
    decreases packets
  {
    if packets == 0 then []
    else Decode(mode, PacketAt(stream, pos)).bytes
         + OutputOf(mode, stream, pos + TRP_SIZE, packets - 1)
  }

  /** A scan that is in sync counts every packet in sync that there is room for. */
  lemma {:induction false} InSyncIsCounted(mode: Mode, stream: seq<Byte>, end: nat, pos: nat,
                                           count: nat, packets: nat)
    requires pos + packets * TRP_SIZE <= end <= |stream|
    requires AreInSync(mode, stream, pos, packets)
    requires count + |OutputOf(mode, stream, pos, packets)| <= FIFO_SIZE
    ensures var output := OutputOf(mode, stream, pos, packets);
      ScanFrom(mode, stream, end, pos, false, count)
      == Before(output, ScanFrom(mode, stream, end, pos + packets * TRP_SIZE, false,
                                 count + |output|))
    decreases packets
  {
    hide Decode, PacketAt, FindSync;
    if packets > 0 {
      var first := Decode(mode, PacketAt(stream, pos)).bytes;
      InSyncIsCounted(mode, stream, end, pos + TRP_SIZE, count + |first|, packets - 1);
      var others := OutputOf(mode, stream, pos + TRP_SIZE, packets - 1);
      var last := ScanFrom(mode, stream, end, pos + packets * TRP_SIZE, false,
                           count + |first + others|);
      assert first + (others + last.output) == first + others + last.output;
    }
  }
}
