// What the video parser delivers when packets are lost: whole frames, or nothing.

module VideoSafety {
  import opened Arithmetic
  import opened Bytes
  import opened Headers
  import opened PixelSpec
  import opened VideoParser
  import opened VideoPackets
  import PixConv

  // ---------------------------------------------------------------- Frames on the wire

  /** A frame or field as sent: its bytes in packets, its field and its timestamp. */
  datatype WireFrame = WireFrame(wire: seq<Byte>, field: bool, timestamp: int)

  /** A packet sent: which frame it is of, and the bytes of the frame in the packets before. */
  datatype Sent = Sent(packet: Packet, frame: nat, before: seq<Byte>)

  /** The bytes of a pixel group that a format converts. */
  function GroupBytes(format: Format): nat {
    match format
    case Uyvy10 => 5
    case Uyvy10To8 => 5
    case Yuv422p8 => 4
    case AsSent => 1
  }

  /** A packet of a frame: the next part of it, marked when it is the last. */
  ghost predicate IsSent(format: Format, frames: seq<WireFrame>, base: nat, n: nat, x: Sent) {
    && x.frame < |frames|
    && var f := frames[x.frame];
    && IsPacket(x.packet, f.field)
    && x.packet.seqNum == (base + n) % W32
    && x.packet.timestamp == f.timestamp
    && x.before + x.packet.data <= f.wire
    && (x.packet.marker <==> x.before + x.packet.data == f.wire)
    && (x.before == [] <==> x.packet.srds[0].row == 0 && x.packet.srds[0].offset == 0)
    && |x.before| % GroupBytes(format) == 0
    && forall i | 0 <= i < |x.packet.srds| :: x.packet.srds[i].length % GroupBytes(format) == 0
  }

  /** The packet after a marked one starts a later frame; any other goes on with its frame. */
  predicate Follows(x: Sent, y: Sent) {
    if x.packet.marker then y.before == [] && y.frame > x.frame
    else y.frame == x.frame && y.before == x.before + x.packet.data
  }

  ghost predicate IsStream(format: Format, frames: seq<WireFrame>, base: nat, sent: seq<Sent>) {
    && (forall n | 0 <= n < |sent| :: IsSent(format, frames, base, n, sent[n]))
    && (forall n | 0 < n < |sent| :: Follows(sent[n - 1], sent[n]))
  }

  // ---------------------------------------------------------------- A frame's bytes

  /** data holds wire in a format. */
  ghost predicate Holds(format: Format, data: seq<Byte>, wire: seq<Byte>) {
    match format
    case Uyvy10 => Convert(ToUyvy10, wire) <= data
    case Uyvy10To8 => Convert(ToUyvy8, wire) <= data
    case Yuv422p8 => PlanarHolds(data, wire)
    case AsSent => wire <= data
  }

  /** The planes of wire are at the start of the halves and quarters of data. */
  ghost predicate PlanarHolds(data: seq<Byte>, wire: seq<Byte>) {
    var plane := |data| / 4;
    PixConv.InPlanes(wire, data, 0, 2 * plane, 3 * plane, 0, |wire| / 4)
  }

  /** A delivered frame is the frame sent, all of it. */
  ghost predicate IsWhole(format: Format, f: Frame, w: WireFrame) {
    && Holds(format, f.data, w.wire) && f.numValid == OutBytes(format, |w.wire|)
    && f.field == (if w.field then 1 else 0) && f.rtpTime == w.timestamp
  }

  /** The parser has put prefix, and nothing else, into the frame being received. */
  ghost predicate HasPrefix(format: Format, s: RxState, prefix: seq<Byte>) {
    && s.partial.Partial? && s.inBytes == |prefix| && s.outBytes == OutBytes(format, |prefix|)
    && |prefix| % GroupBytes(format) == 0
    && Holds(format, s.partial.data, prefix)
  }

  lemma EmptyPrefix(format: Format, s: RxState)
    requires Inv(s) && s.partial.Partial? && s.inBytes == 0
    ensures HasPrefix(format, s, [])
  {
    assert Convert(ToUyvy10, []) == [] && Convert(ToUyvy8, []) == [];
  }

  // A prefix stored at its place behind what is held.
  lemma PutHolds(data: seq<Byte>, held: seq<Byte>, bytes: seq<Byte>)
    requires held <= data && |held| + |bytes| <= |data|
    ensures held + bytes <= Put(data, |held|, bytes)
  {
    StoredPrefix(data, Put(data, |held|, bytes), |held|, bytes, bytes);
  }

  lemma PlanesHold(data: seq<Byte>, prefix: seq<Byte>, src: seq<Byte>)
    requires |prefix| % 4 == 0 && |src| % 4 == 0 && |prefix| + |src| <= |data|
    requires PlanarHolds(data, prefix)
    ensures PlanarHolds(PutPlanes(data, |data| / 4, |prefix| / 4, src), prefix + src)
  {
    hide IsPlanar, PixConv.OutsidePlanes, PutPlanes;
    var plane, i, m := |data| / 4, |prefix| / 4, |src| / 4;
    var all, now := prefix + src, PutPlanes(data, plane, i, src);
    NewPlanes(data, plane, i, src);
    assert PixConv.InPlanes(all, data, 0, 2 * plane, 3 * plane, 0, i) by {
      assert all[4 * 0..4 * i] == prefix[4 * 0..4 * i];
    }
    assert PixConv.InPlanes(all, now, 0, 2 * plane, 3 * plane, i, i + m) by {
      assert all[4 * i..4 * (i + m)] == src;
    }
    hide PixConv.InPlanes;
    PixConv.MorePlanes(all, data, now, 0, 2 * plane, 3 * plane, i, m, plane);
  }

  lemma NewPlanes(data: seq<Byte>, plane: nat, at: nat, src: seq<Byte>)
    requires |src| % 4 == 0 && at + |src| / 4 <= plane && 4 * plane <= |data|
    ensures var now, n := PutPlanes(data, plane, at, src), |src| / 4;
      && IsPlanar(src, now[2 * at..2 * (at + n)], now[2 * plane + at..2 * plane + at + n],
                  now[3 * plane + at..3 * plane + at + n])
      && PixConv.OutsidePlanes(data, now, 2 * at, 2 * plane + at, 3 * plane + at, n)
  {
  }

  /** Writing a segment of whole groups extends what is held by it. */
  lemma WriteHolds(format: Format, data: seq<Byte>, prefix: seq<Byte>, src: seq<Byte>)
    requires |prefix| + |src| <= |data| && Holds(format, data, prefix)
    requires |prefix| % GroupBytes(format) == 0 && |src| % GroupBytes(format) == 0
    ensures Holds(format, Write(format, data, OutBytes(format, |prefix|), src), prefix + src)
    ensures OutBytes(format, |prefix + src|)
         == OutBytes(format, |prefix|) + OutBytes(format, |src|)
  {
    hide Put, PutPlanes, Convert, PlanarHolds;
    match format
    case Uyvy10 =>
      ConvertConcat(ToUyvy10, prefix, src);
      PutHolds(data, Convert(ToUyvy10, prefix), Convert(ToUyvy10, src));
    case Uyvy10To8 =>
      ConvertConcat(ToUyvy8, prefix, src);
      PutHolds(data, Convert(ToUyvy8, prefix), Convert(ToUyvy8, src));
    case Yuv422p8 => PlanesHold(data, prefix, src);
    case AsSent => PutHolds(data, prefix, src);
  }

  /** Appending a segment extends the prefix by it. */
  lemma AppendExtends(format: Format, s: RxState, prefix: seq<Byte>, src: seq<Byte>)
    requires Inv(s) && HasPrefix(format, s, prefix)
    requires s.inBytes + |src| <= s.calculatedSize && |src| % GroupBytes(format) == 0
    ensures var t := AppendSegment(format, s, src);
      && HasPrefix(format, t, prefix + src)
      && t == s.(partial := t.partial, inBytes := t.inBytes, outBytes := t.outBytes)
      && t.partial == s.partial.(data := t.partial.data)
  {
    hide Write, Holds;
    WriteHolds(format, s.partial.data, prefix, src);
  }

  // ---------------------------------------------------------------- A packet's segments

  /** t is s but for the frame being filled and how far it is. */
  predicate OnlyFills(s: RxState, t: RxState) {
    && s.partial.Partial? && t.partial.Partial?
    && t == s.(partial := s.partial.(data := t.partial.data), inBytes := t.inBytes,
               outBytes := t.outBytes)
  }

  predicate WholeGroups(format: Format, srds: seq<Srd>) {
    forall i | 0 <= i < |srds| :: srds[i].length % GroupBytes(format) == 0
  }

  /** The parser fails on a size it did not expect: it starts over, having delivered nothing. */
  predicate StartsOver(s: RxState, t: RxState) {
    t.isWaiting && t.partial.NoFrame? && t.delivered == s.delivered
  }

  /**
   * Appending the segments of a packet extends the prefix by its data, or is a size error;
   * never an error when the learned size has room for all of it.
   */
  lemma {:induction false} AppendAll(format: Format, s: RxState, prefix: seq<Byte>,
                                     srds: seq<Srd>, src: seq<Byte>)
    requires Inv(s) && s.partial.Partial? && HasPrefix(format, s, prefix)
    requires AllFit(srds) && WholeGroups(format, srds) && DataBytes(srds) == |src|
    ensures var t := AppendSegments(format, s, srds, src);
      if s.inBytes + |src| <= s.calculatedSize
      then OnlyFills(s, t) && HasPrefix(format, t, prefix + src)
      else StartsOver(s, t)
    decreases |srds|
  {
    hide HasPrefix, AppendSegment, Inv;
    if srds == [] {
      assert prefix + src == prefix;
      FullPrefix(s);
    } else {
      var n := srds[0].length;
      DataBytesNonNegative(srds[1..]);
      if s.inBytes + n <= s.calculatedSize {
        AppendExtends(format, s, prefix, src[..n]);
        AppendAll(format, AppendSegment(format, s, src[..n]), prefix + src[..n], srds[1..], src[n..]);
        assert prefix + src[..n] + src[n..] == prefix + src;
        AppendAdds(format, s, src[..n]);
      }
    }
  }

  lemma FullPrefix(s: RxState)
    requires Inv(s) && s.partial.Partial?
    ensures s.inBytes <= s.calculatedSize
  {
  }

  lemma AppendAdds(format: Format, s: RxState, src: seq<Byte>)
    requires Inv(s) && s.partial.Partial? && s.inBytes + |src| <= s.calculatedSize
    ensures var t := AppendSegment(format, s, src);
      t.inBytes == s.inBytes + |src| && t.calculatedSize == s.calculatedSize
  {
  }

  // ---------------------------------------------------------------- One packet

  /** The bytes of its frame up to and with a packet; none once the frame is over. */
  function After(x: Sent): seq<Byte> {
    if x.packet.marker then [] else x.before + x.packet.data
  }

  /** The parser holds prefix of a frame with timestamp, or nothing yet of the next frame. */
  ghost predicate Synced(format: Format, s: RxState, timestamp: int, prefix: seq<Byte>) {
    if prefix == [] then s.inBytes == 0
    else HasPrefix(format, s, prefix) && s.partial.rtpTime == timestamp
  }

  /**
   * What the parser knows after packet g was the last to arrive: it waits for a marker, or
   * holds exactly what was sent of packet g's frame so far.
   */
  ghost predicate Tracks(format: Format, frames: seq<WireFrame>, base: nat, sent: seq<Sent>,
                         s: RxState, g: int) {
    s.isWaiting
    || (&& 0 <= g < |sent| && sent[g].frame < |frames|
        && s.lastSeq == (base + g) % W32
        && Synced(format, s, frames[sent[g].frame].timestamp, After(sent[g])))
  }

  /** What a step delivers: nothing, or the frame the packet ends, whole. */
  ghost predicate DeliversWhole(format: Format, s: RxState, t: RxState, x: Sent, w: WireFrame) {
    || t.delivered == s.delivered
    || (&& x.packet.marker && |t.delivered| == |s.delivered| + 1
        && t.delivered[..|s.delivered|] == s.delivered
        && IsWhole(format, t.delivered[|s.delivered|], w))
  }

  lemma FieldOfPacket(p: Packet, field: bool)
    requires IsPacket(p, field)
    ensures AllFit(p.srds) && AnyField(p.srds) == field
  {
    assert p.srds[0] in p.srds;
  }

  // Delivering a frame that holds all that was sent of it.
  lemma DeliverIsWhole(format: Format, s: RxState, x: Sent, w: WireFrame, env: Env)
    requires s.partial.Partial? && HasPrefix(format, s, w.wire) && s.partial.rtpTime == w.timestamp
    requires x.packet.marker
    ensures var t := Deliver(format, s, w.field, env.accepts);
      DeliversWhole(format, s, t, x, w) && t.inBytes == 0 && t.lastSeq == s.lastSeq
  {
    hide Holds;
  }

  lemma StampKeepsPrefix(format: Format, s: RxState, prefix: seq<Byte>, timestamp: int, todNs: nat)
    requires Inv(s) && s.partial.Partial? && Synced(format, s, timestamp, prefix)
    ensures var t := StampFrame(s, timestamp, todNs);
      && Inv(t) && HasPrefix(format, t, prefix) && t.partial.rtpTime == timestamp
      && t == s.(partial := t.partial) && t.partial.Partial?
  {
    if prefix == [] {
      EmptyPrefix(format, StampFrame(s, timestamp, todNs));
    }
  }

  // Once there is a frame to fill and its prefix is right: the segments, and the end.
  lemma FillIsSafe(format: Format, s: RxState, x: Sent, w: WireFrame, todNs: nat, env: Env)
    requires Inv(s) && s.partial.Partial? && IsPacket(x.packet, w.field)
    requires WholeGroups(format, x.packet.srds)
    requires x.packet.timestamp == w.timestamp
    requires x.packet.marker <==> x.before + x.packet.data == w.wire
    requires Synced(format, s, w.timestamp, x.before)
    ensures AllFit(x.packet.srds)
    ensures var t := FillFrame(format, s, RtpOf(x.packet), x.packet.srds, x.packet.data, todNs, env);
      && DeliversWhole(format, s, t, x, w)
      && (t.isWaiting || (t.lastSeq == s.lastSeq && Synced(format, t, w.timestamp, After(x))))
  {
    hide AppendSegments, HasPrefix, StampFrame, Deliver, DeliversWhole, Inv;
    var p := x.packet;
    FieldOfPacket(p, w.field);
    StampKeepsPrefix(format, s, x.before, w.timestamp, todNs);
    var s1 := StampFrame(s, p.timestamp, todNs);
    AppendAll(format, s1, x.before, p.srds, p.data);
    DataIsThere(p, w.field);
    var s2 := AppendSegments(format, s1, p.srds, p.data);
    NothingDelivered(format, s, s2, x, w);
    if p.marker && s2.partial.Partial? {
      DeliverIsWhole(format, s2, x, w, env);
      DeliversAfter(format, s, s2, Deliver(format, s2, w.field, env.accepts), x, w);
    }
  }

  lemma NothingDelivered(format: Format, s: RxState, t: RxState, x: Sent, w: WireFrame)
    requires t.delivered == s.delivered
    ensures DeliversWhole(format, s, t, x, w)
  {
  }

  lemma DeliversAfter(format: Format, s: RxState, s1: RxState, t: RxState, x: Sent, w: WireFrame)
    requires s1.delivered == s.delivered && DeliversWhole(format, s1, t, x, w)
    ensures DeliversWhole(format, s, t, x, w)
  {
  }

  lemma DataIsThere(p: Packet, field: bool)
    requires IsPacket(p, field)
    ensures |p.data| > 0
  {
    DataBytesNonNegative(p.srds[1..]);
  }

  /** The parser skips what it gets, or is between frames after packet seqNum. */
  predicate IsIdle(t: RxState, isEnd: bool, seqNum: int) {
    t.isWaiting || (isEnd && t.lastSeq == seqNum && t.inBytes == 0)
  }

  lemma LearnIsSafe(s: RxState, isEnd: bool, srds: seq<Srd>, seqNum: int)
    ensures var t := Learn(s, isEnd, srds, seqNum);
      s.isWaiting ==> IsIdle(t, isEnd, seqNum) && t.delivered == s.delivered
  {
  }

  lemma BeginIsSafe(format: Format, s: RxState, isEnd: bool, srds: seq<Srd>, env: Env,
                    timestamp: int, prefix: seq<Byte>)
    requires Inv(s) && Synced(format, s, timestamp, prefix)
    ensures var (t, hasFrame) := BeginFrame(s, isEnd, srds, env);
      && t.delivered == s.delivered
      && (hasFrame ==> t.lastSeq == s.lastSeq && Synced(format, t, timestamp, prefix))
      && (!hasFrame ==> IsIdle(t, isEnd, s.lastSeq))
  {
    hide Holds, Write;
  }

  // Sequence numbers tell consecutive packets from others, over less than a wrap.
  lemma SequenceTellsGaps(base: nat, g: nat, h: nat)
    requires g < h <= g + W32
    ensures (base + h) % W32 == ((base + g) % W32 + 1) % W32 <==> h == g + 1
  {
  }

  lemma SequenceIsSafe(format: Format, frames: seq<WireFrame>, base: nat, sent: seq<Sent>,
                       s: RxState, g: nat, h: nat)
    requires IsStream(format, frames, base, sent) && Inv(s)
    requires g < h < |sent| && h <= g + W32
    requires !s.isWaiting && Tracks(format, frames, base, sent, s, g)
    ensures var p := sent[h].packet;
      var (t, isGoingOn) := CheckSequence(s, p.marker, p.srds, p.seqNum);
      && t.delivered == s.delivered && Inv(t)
      && (isGoingOn ==> t.lastSeq == p.seqNum
                        && Synced(format, t, frames[sent[h].frame].timestamp, sent[h].before))
      && (!isGoingOn ==> IsIdle(t, p.marker, p.seqNum))
  {
    assert IsSent(format, frames, base, h, sent[h]);
    SequenceTellsGaps(base, g, h);
    if h == g + 1 {
      assert Follows(sent[h - 1], sent[h]);
    }
  }

  // An idle parser tracks the stream.
  lemma IdleTracks(format: Format, frames: seq<WireFrame>, base: nat, sent: seq<Sent>,
                   t: RxState, h: nat)
    requires h < |sent| && IsSent(format, frames, base, h, sent[h])
    requires IsIdle(t, sent[h].packet.marker, sent[h].packet.seqNum)
    ensures Tracks(format, frames, base, sent, t, h)
  {
  }

  lemma SyncedTracks(format: Format, frames: seq<WireFrame>, base: nat, sent: seq<Sent>,
                     t: RxState, h: nat)
    requires h < |sent| && IsSent(format, frames, base, h, sent[h])
    requires t.isWaiting
             || (t.lastSeq == sent[h].packet.seqNum
                 && Synced(format, t, frames[sent[h].frame].timestamp, After(sent[h])))
    ensures Tracks(format, frames, base, sent, t, h)
  {
  }

  // A packet of the stream with its rows read, to a parser that does not wait.
  lemma RowsAreSafe(format: Format, frames: seq<WireFrame>, base: nat, sent: seq<Sent>,
                    s: RxState, g: nat, h: nat, todNs: nat, env: Env)
    requires IsStream(format, frames, base, sent) && Inv(s)
    requires g < h < |sent| && h <= g + W32
    requires !s.isWaiting && Tracks(format, frames, base, sent, s, g)
    ensures IsSent(format, frames, base, h, sent[h]) && AllFit(sent[h].packet.srds)
    ensures var x := sent[h];
      var t := HandleRows(format, s, RtpOf(x.packet), x.packet.seqNum, x.packet.srds,
                          x.packet.data, todNs, env);
      && Tracks(format, frames, base, sent, t, h)
      && DeliversWhole(format, s, t, x, frames[x.frame])
  {
    assert IsSent(format, frames, base, h, sent[h]);
    hide CheckSequence, BeginFrame, FillFrame, Tracks, Synced, DeliversWhole, IsIdle, Inv;
    hide IsStream;
    var x, w := sent[h], frames[sent[h].frame];
    var p := x.packet;
    FieldOfPacket(p, w.field);
    SequenceIsSafe(format, frames, base, sent, s, g, h);
    var (s1, isGoingOn) := CheckSequence(s, p.marker, p.srds, p.seqNum);
    NothingDelivered(format, s, s1, x, w);
    if !isGoingOn {
      IdleTracks(format, frames, base, sent, s1, h);
    } else {
      BeginIsSafe(format, s1, p.marker, p.srds, env, w.timestamp, x.before);
      var (s2, hasFrame) := BeginFrame(s1, p.marker, p.srds, env);
      NothingDelivered(format, s, s2, x, w);
      if !hasFrame {
        IdleTracks(format, frames, base, sent, s2, h);
      } else {
        FillIsSafe(format, s2, x, w, todNs, env);
        var t := FillFrame(format, s2, RtpOf(p), p.srds, p.data, todNs, env);
        DeliversAfter(format, s, s2, t, x, w);
        SyncedTracks(format, frames, base, sent, t, h);
      }
    }
  }

  /**
   * A packet of the stream, whatever was lost before it: the parser still tracks the stream,
   * and what it delivers is the frame the packet ends, whole.
   */
  lemma StepIsSafe(format: Format, frames: seq<WireFrame>, base: nat, sent: seq<Sent>,
                   s: RxState, g: int, h: nat, todNs: nat, env: Env)
    requires IsStream(format, frames, base, sent) && Inv(s)
    requires g < h < |sent| && (s.isWaiting || h <= g + W32)
    requires Tracks(format, frames, base, sent, s, g)
    ensures IsSent(format, frames, base, h, sent[h])
    ensures var x := sent[h];
      var t := HandlePacket(format, s, x.packet, frames[x.frame].field, todNs, env);
      && Tracks(format, frames, base, sent, t, h)
      && DeliversWhole(format, s, t, x, frames[x.frame])
  {
    assert IsSent(format, frames, base, h, sent[h]);
    var x, w := sent[h], frames[sent[h].frame];
    var p := x.packet;
    FieldOfPacket(p, w.field);
    var s1 := s.(isInterlaced := s.isInterlaced || w.field);
    NothingDelivered(format, s, s1, x, w);
    if w.field && !s.isInterlaced && s.calculatedSize != -1 {
      NothingDelivered(format, s, SizeError(s), x, w);
    } else if s.isWaiting {
      LearnIsSafe(s1, p.marker, p.srds, p.seqNum);
      hide Learn;
      var t := Learn(s1, p.marker, p.srds, p.seqNum);
      IdleTracks(format, frames, base, sent, t, h);
      NothingDelivered(format, s, t, x, w);
    } else {
      hide HandleRows;
      RowsAreSafe(format, frames, base, sent, s1, g, h, todNs, env);
      var t := HandleRows(format, s1, RtpOf(p), p.seqNum, p.srds, p.data, todNs, env);
      DeliversAfter(format, s, s1, t, x, w);
    }
  }

  // ---------------------------------------------------------------- A run

  /** Every packet of a stream has a payload. */
  ghost predicate HavePayloads(sent: seq<Sent>) {
    forall n | 0 <= n < |sent| ::
      0 <= sent[n].packet.seqNum < W32 && RtpFits(RtpOf(sent[n].packet))
  }

  lemma RestHasPayloads(sent: seq<Sent>)
    requires HavePayloads(sent)
    ensures sent != [] ==> HavePayloads(sent[1..])
    ensures sent != [] ==> 0 <= sent[0].packet.seqNum < W32 && RtpFits(RtpOf(sent[0].packet))
  {
    hide RtpFits;
  }

  predicate InRange(received: seq<nat>, count: nat) {
    forall i | 0 <= i < |received| :: received[i] < count
  }

  /** Numbers of packets, in order, fewer than a wrap of the sequence numbers apart. */
  predicate InOrder(received: seq<nat>, count: nat) {
    && InRange(received, count)
    && (forall i | 0 < i < |received| :: received[i - 1] < received[i] <= received[i - 1] + W32)
  }

  lemma InOrderRest(received: seq<nat>, count: nat)
    requires InOrder(received, count) && received != []
    ensures received[0] < count && InRange(received, count)
    ensures InOrder(received[1..], count) && InRange(received[1..], count)
    ensures |received| > 1 ==> received[0] < received[1] <= received[0] + W32
  {
  }

  /** The packets of a stream that arrive, by their numbers, and when. */
  ghost function Arrivals(sent: seq<Sent>, received: seq<nat>, tods: seq<nat>): (r: seq<Arrival>)
    requires HavePayloads(sent) && |received| == |tods| && InRange(received, |sent|)
    ensures |r| == |received|
  {
    if received == [] then []
    else [Arrived(Datagram(Payload(sent[received[0]].packet), tods[0]))]
         + Arrivals(sent, received[1..], tods[1..])
  }

  /** Frame k comes after what packet g ended or is part of. */
  predicate IsLater(sent: seq<Sent>, g: int, k: nat)
    requires g < |sent|
  {
    g < 0 || (if sent[g].packet.marker then k > sent[g].frame else k >= sent[g].frame)
  }

  lemma {:induction false} FramesAreInOrder(format: Format, frames: seq<WireFrame>, base: nat,
                                            sent: seq<Sent>, g: int, h: nat)
    requires IsStream(format, frames, base, sent) && g < h < |sent|
    ensures IsLater(sent, g, sent[h].frame)
    decreases h
  {
    if g >= 0 {
      assert Follows(sent[h - 1], sent[h]);
      if g < h - 1 {
        FramesAreInOrder(format, frames, base, sent, g, h - 1);
      }
    }
  }

  /** The frames delivered since first are those numbered ks, whole, and in the order sent. */
  ghost predicate AreWhole(format: Format, frames: seq<WireFrame>, delivered: seq<Frame>,
                           first: nat, ks: seq<nat>) {
    && |delivered| == first + |ks|
    && (forall i | 0 <= i < |ks| ::
          ks[i] < |frames| && IsWhole(format, delivered[first + i], frames[ks[i]]))
    && (forall i | 0 < i < |ks| :: ks[i - 1] < ks[i])
  }

  /**
   * Whatever packets of a stream are lost, and whatever the pool and the sink do: every frame
   * delivered is a whole frame of the stream, and they come in the order they were sent.
   */
  lemma {:induction false} RunIsSafe(format: Format, frames: seq<WireFrame>, base: nat,
                                     sent: seq<Sent>, s: RxState, g: int, received: seq<nat>,
                                     tods: seq<nat>, envs: seq<Env>)
    returns (ks: seq<nat>)
    requires IsStream(format, frames, base, sent) && HavePayloads(sent) && Inv(s)
    requires InOrder(received, |sent|) && |tods| == |envs| == |received| && g < |sent|
    requires received != [] ==> g < received[0] && (s.isWaiting || received[0] <= g + W32)
    requires Tracks(format, frames, base, sent, s, g)
    ensures var t := Run(format, s, Arrivals(sent, received, tods), envs);
      && s.delivered <= t.delivered
      && AreWhole(format, frames, t.delivered, |s.delivered|, ks)
    ensures forall i | 0 <= i < |ks| :: IsLater(sent, g, ks[i])
    decreases |received|
  {
    hide HandlePacket, DeliversWhole, AreWhole, Tracks, Inv, Run, Arrivals, IsLater;
    hide InOrder, InRange, IsStream, HavePayloads, IsSent, IsPacket;
    if received == [] {
      NothingReceived(format, frames, s, sent, received, tods, envs);
      return [];
    }
    InOrderRest(received, |sent|);
    var h := received[0];
    var x := sent[h];
    StepIsSafe(format, frames, base, sent, s, g, h, tods[0], envs[0]);
    SentIsPacket(format, frames, base, h, x);
    RunUnfolds(format, s, frames, base, sent, received, tods, envs);
    var t := HandlePacket(format, s, x.packet, frames[x.frame].field, tods[0], envs[0]);
    var rest := RunIsSafe(format, frames, base, sent, t, h, received[1..], tods[1..], envs[1..]);
    FramesAreInOrder(format, frames, base, sent, g, h);
    ks := if t.delivered == s.delivered then rest else [x.frame] + rest;
    DeliveriesJoin(format, frames, base, sent, s, t, g, h, rest,
                   Run(format, t, Arrivals(sent, received[1..], tods[1..]), envs[1..]).delivered);
  }

  lemma NothingReceived(format: Format, frames: seq<WireFrame>, s: RxState, sent: seq<Sent>,
                        received: seq<nat>, tods: seq<nat>, envs: seq<Env>)
    requires received == [] && |tods| == |envs| == 0 && HavePayloads(sent) && Inv(s)
    ensures InRange(received, |sent|)
    ensures Run(format, s, Arrivals(sent, received, tods), envs) == s
    ensures AreWhole(format, frames, s.delivered, |s.delivered|, [])
  {
  }

  lemma SentIsPacket(format: Format, frames: seq<WireFrame>, base: nat, n: nat, x: Sent)
    requires IsSent(format, frames, base, n, x)
    ensures x.frame < |frames| && IsPacket(x.packet, frames[x.frame].field)
  {
  }

  lemma RunUnfolds(format: Format, s: RxState, frames: seq<WireFrame>, base: nat, sent: seq<Sent>,
                   received: seq<nat>, tods: seq<nat>, envs: seq<Env>)
    requires HavePayloads(sent) && Inv(s) && InRange(received, |sent|)
    requires received != [] && |tods| == |envs| == |received|
    requires IsSent(format, frames, base, received[0], sent[received[0]])
    ensures InRange(received[1..], |sent|)
    ensures var x := sent[received[0]];
      Run(format, s, Arrivals(sent, received, tods), envs)
      == Run(format, HandlePacket(format, s, x.packet, frames[x.frame].field, tods[0], envs[0]),
             Arrivals(sent, received[1..], tods[1..]), envs[1..])
  {
    hide Step, HandlePacket, Inv, Payload;
    var x := sent[received[0]];
    var w := frames[x.frame];
    PacketIsRead(format, s, x.packet, w.field, tods[0], envs[0]);
    hide IsSent, IsPacket;
    assert Arrivals(sent, received, tods)[1..] == Arrivals(sent, received[1..], tods[1..]);
  }

  // What a first packet delivers, and what those after it do.
  lemma DeliveriesJoin(format: Format, frames: seq<WireFrame>, base: nat, sent: seq<Sent>,
                       s: RxState, t: RxState, g: int, h: nat, rest: seq<nat>,
                       delivered: seq<Frame>)
    requires IsStream(format, frames, base, sent) && g < h < |sent|
    requires sent[h].frame < |frames|
    requires DeliversWhole(format, s, t, sent[h], frames[sent[h].frame])
    requires t.delivered <= delivered && AreWhole(format, frames, delivered, |t.delivered|, rest)
    requires forall i | 0 <= i < |rest| :: IsLater(sent, h, rest[i])
    ensures var ks := if t.delivered == s.delivered then rest else [sent[h].frame] + rest;
      && s.delivered <= delivered && AreWhole(format, frames, delivered, |s.delivered|, ks)
      && forall i | 0 <= i < |ks| :: IsLater(sent, g, ks[i])
  {
    hide IsWhole, IsStream, IsLater;
    var k := sent[h].frame;
    FramesAreInOrder(format, frames, base, sent, g, h);
    forall i | 0 <= i < |rest|
      ensures IsLater(sent, g, rest[i])
    {
      LaterThanLater(sent, g, h, rest[i]);
    }
    if t.delivered != s.delivered {
      if rest != [] {
        LaterThanMarked(sent, h, rest[0]);
      }
      OneMoreFrame(format, frames, delivered, s.delivered, t.delivered, k, rest);
      assert delivered[|s.delivered|] == t.delivered[|s.delivered|];
    }
  }

  lemma LaterThanLater(sent: seq<Sent>, g: int, h: nat, k: nat)
    requires g < h < |sent| && IsLater(sent, g, sent[h].frame) && IsLater(sent, h, k)
    ensures IsLater(sent, g, k)
  {
  }

  lemma LaterThanMarked(sent: seq<Sent>, h: nat, k: nat)
    requires h < |sent| && sent[h].packet.marker && IsLater(sent, h, k)
    ensures k > sent[h].frame
  {
  }

  lemma OneMoreFrame(format: Format, frames: seq<WireFrame>, delivered: seq<Frame>,
                     before: seq<Frame>, now: seq<Frame>, k: nat, rest: seq<nat>)
    requires now <= delivered && |now| == |before| + 1 && now[..|before|] == before
    requires k < |frames| && IsWhole(format, now[|before|], frames[k])
    requires AreWhole(format, frames, delivered, |now|, rest)
    requires rest != [] ==> rest[0] > k
    ensures before <= delivered && AreWhole(format, frames, delivered, |before|, [k] + rest)
  {
    hide IsWhole;
    var ks := [k] + rest;
    assert delivered[|before|] == now[|before|];
    forall i | 0 <= i < |ks|
      ensures ks[i] < |frames| && IsWhole(format, delivered[|before| + i], frames[ks[i]])
    {
      if i > 0 {
        assert ks[i] == rest[i - 1] && delivered[|before| + i] == delivered[|now| + (i - 1)];
      }
    }
    assert before == delivered[..|before|] by {
      assert now[..|before|] == delivered[..|now|][..|before|];
    }
  }

  /** From a fresh parser. */
  lemma LossSafety(format: Format, frames: seq<WireFrame>, base: nat, sent: seq<Sent>,
                   received: seq<nat>, tods: seq<nat>, envs: seq<Env>)
    returns (ks: seq<nat>)
    requires IsStream(format, frames, base, sent) && HavePayloads(sent)
    requires InOrder(received, |sent|) && |tods| == |envs| == |received|
    ensures AreWhole(format, frames,
                     Run(format, INITIAL, Arrivals(sent, received, tods), envs).delivered, 0, ks)
  {
    ks := RunIsSafe(format, frames, base, sent, INITIAL, -1, received, tods, envs);
  }
}
