// The video round trip: frames packetized and fed in order to a fresh parser.

module VideoRoundTrip {
  import opened Arithmetic
  import opened Bytes
  import opened Headers
  import opened PixelSpec
  import opened VideoCut
  import opened VideoPackets
  import opened VideoParser
  import opened VideoSafety
  import opened VideoStream
  import opened VideoLossless
  import MediaTime

  // ---------------------------------------------------------------- Every packet arrives

  /** All packets, in order. */
  ghost function InSequence(sent: seq<Sent>, tods: seq<nat>): (r: seq<Arrival>)
    requires HavePayloads(sent) && |tods| == |sent|
    ensures |r| == |sent|
  {
    if sent == [] then []
    else
      RestHasPayloads(sent);
      [Arrived(Datagram(Payload(sent[0].packet), tods[0]))] + InSequence(sent[1..], tods[1..])
  }

  lemma PartsHavePayloads(a: seq<Sent>, b: seq<Sent>)
    requires HavePayloads(a + b)
    ensures HavePayloads(a) && HavePayloads(b)
  {
    hide RtpFits;
    forall n | 0 <= n < |a|
      ensures 0 <= a[n].packet.seqNum < W32 && RtpFits(RtpOf(a[n].packet))
    {
      assert a[n] == (a + b)[n];
    }
    forall n | 0 <= n < |b|
      ensures 0 <= b[n].packet.seqNum < W32 && RtpFits(RtpOf(b[n].packet))
    {
      assert b[n] == (a + b)[|a| + n];
    }
  }

  /** The pool has memory and the sink takes every frame. */
  predicate AllWell(envs: seq<Env>) {
    forall i | 0 <= i < |envs| :: envs[i].hasMemory && envs[i].accepts
  }

  // The first packet of a run.
  lemma RunBegins(format: Format, s: RxState, sent: seq<Sent>, field: bool, tods: seq<nat>,
                  envs: seq<Env>)
    requires Inv(s) && sent != [] && HavePayloads(sent) && |tods| == |envs| == |sent|
    requires IsPacket(sent[0].packet, field)
    ensures HavePayloads(sent[1..])
    ensures Run(format, s, InSequence(sent, tods), envs)
         == Run(format, HandlePacket(format, s, sent[0].packet, field, tods[0], envs[0]),
                InSequence(sent[1..], tods[1..]), envs[1..])
  {
    hide Step, HandlePacket, Inv, Payload, IsPacket, HavePayloads;
    PacketIsRead(format, s, sent[0].packet, field, tods[0], envs[0]);
    RestHasPayloads(sent);
    assert InSequence(sent, tods)[1..] == InSequence(sent[1..], tods[1..]);
  }

  /** A run of packets is a run of the first ones, and then of the others. */
  lemma {:induction false} RunSplits(format: Format, s: RxState, a: seq<Sent>, b: seq<Sent>,
                                     tods: seq<nat>, envs: seq<Env>)
    requires Inv(s) && HavePayloads(a + b) && HavePayloads(a) && HavePayloads(b)
    requires |tods| == |envs| == |a + b|
    ensures Run(format, s, InSequence(a + b, tods), envs)
         == Run(format, Run(format, s, InSequence(a, tods[..|a|]), envs[..|a|]),
                InSequence(b, tods[|a|..]), envs[|a|..])
    decreases |a|
  {
    hide Step, Inv, Payload, HavePayloads;
    if a == [] {
      assert a + b == b && tods[0..] == tods && envs[0..] == envs;
    } else {
      RestHasPayloads(a);
      RestHasPayloads(a + b);
      assert (a + b)[1..] == a[1..] + b && (a + b)[0] == a[0];
      var arrival := Arrived(Datagram(Payload(a[0].packet), tods[0]));
      var t := Step(format, s, arrival, envs[0]);
      RunSplits(format, t, a[1..], b, tods[1..], envs[1..]);
      assert tods[1..][..|a| - 1] == tods[..|a|][1..] && envs[1..][..|a| - 1] == envs[..|a|][1..];
      assert tods[1..][|a| - 1..] == tods[|a|..] && envs[1..][|a| - 1..] == envs[|a|..];
      assert InSequence(a + b, tods) == [arrival] + InSequence(a[1..] + b, tods[1..]);
      assert InSequence(a, tods[..|a|]) == [arrival] + InSequence(a[1..], tods[..|a|][1..]);
      FirstStep(format, s, arrival, InSequence(a[1..] + b, tods[1..]), envs);
      FirstStep(format, s, arrival, InSequence(a[1..], tods[..|a|][1..]), envs[..|a|]);
    }
  }

  lemma FirstStep(format: Format, s: RxState, arrival: Arrival, rest: seq<Arrival>,
                  envs: seq<Env>)
    requires Inv(s) && |envs| == |rest| + 1
    ensures Run(format, s, [arrival] + rest, envs)
         == Run(format, Step(format, s, arrival, envs[0]), rest, envs[1..])
  {
    hide Step, Inv;
    assert ([arrival] + rest)[1..] == rest;
  }

  // ---------------------------------------------------------------- The packets of one frame

  /** What a round trip asks of the stream: everything fits the headers. */
  predicate IsFit(format: Format, c: TxConfig, t: Stream) {
    FitsHeaders(c) && StreamFits(t) && FormatFits(format, c) && SizeFits(c)
  }

  // The packets of a later frame from a place on: the frame is delivered.
  lemma {:induction false} FramePasses(format: Format, c: TxConfig, t: Stream, first: WireFrame,
                                       w: WireFrame, start: nat, k: nat, p: Place,
                                       before: seq<Byte>,
                                       seqNum: nat, count: nat, s: RxState, tods: seq<nat>,
                                       envs: seq<Env>)
    requires IsFit(format, c, t) && AreAlike(c, first, w) && AllWell(envs)
    requires IsPlaceIn(c, w, p, before) && p.rowsToDo > 0
    requires Inv(s) && IsAt(format, c, first, w, start, before, seqNum, count, s)
    requires var sent := PacketsFrom(c, t, w, k, p, before, seqNum);
      HavePayloads(sent) && |tods| == |envs| == |sent|
    ensures var sent := PacketsFrom(c, t, w, k, p, before, seqNum);
      sent != [] &&
      HasDelivered(format, c, first, w, StartOf(before, start, tods[0]), seqNum + |sent|, count, s,
                   Run(format, s, InSequence(sent, tods), envs))
    decreases p.rowsToDo, c.rowSize - p.rowOffset
  {
    hide IsPlaceIn, PacketAt, IsAt, Inv, HasDelivered, HandlePacket, PacketsFrom, AreAlike;
    hide HavePayloads, CutPacket, IsPacket, FitsHeaders, FormatFits, SizeFits, Run, InSequence;
    hide WholeGroups;
    PacketsUnfold(c, t, w, k, p, before, seqNum);
    InsideHasPlace(c, w, p, before);
    PacketIsNextPart(format, c, t, w, k, p, before, seqNum);
    var x, end := PacketAt(c, t, w, k, p, before, seqNum), CutPacket(c, p).1;
    var sent := PacketsFrom(c, t, w, k, p, before, seqNum);
    var rest := PacketsFrom(c, t, w, k, end, before + x.packet.data, seqNum + 1);
    PacketGoesOn(format, c, first, w, start, before, seqNum, count, s, x.packet, tods[0], envs[0]);
    RunBegins(format, s, sent, w.field, tods, envs);
    assert sent[1..] == rest;
    var u, begun := HandlePacket(format, s, x.packet, w.field, tods[0], envs[0]),
                    StartOf(before, start, tods[0]);
    if end.rowsToDo > 0 {
      FramePasses(format, c, t, first, w, begun, k, end, before + x.packet.data, seqNum + 1, count, u,
                  tods[1..], envs[1..]);
      SameDelivery(format, c, first, w, begun, seqNum + |sent|, count, u, s,
                   Run(format, u, InSequence(rest, tods[1..]), envs[1..]));
    } else {
      PacketsUnfold(c, t, w, k, end, before + x.packet.data, seqNum + 1);
      NothingLeft(format, u, rest, tods[1..], envs[1..]);
    }
  }

  lemma NothingLeft(format: Format, s: RxState, sent: seq<Sent>, tods: seq<nat>, envs: seq<Env>)
    requires Inv(s) && HavePayloads(sent) && |tods| == |envs| == |sent| && sent == []
    ensures Run(format, s, InSequence(sent, tods), envs) == s
  {
  }

  // A packet of the first frame is counted, and nothing else.
  lemma FirstPacketIsCounted(format: Format, c: TxConfig, t: Stream, w: WireFrame, k: nat,
                             p: Place, before: seq<Byte>, seqNum: nat, s: RxState, todNs: nat,
                             env: Env)
    requires IsFit(format, c, t) && IsPlaceIn(c, w, p, before) && p.rowsToDo > 0
    requires Inv(s) && IsLearning(c, w, p, before, seqNum, s)
    ensures var x, end := PacketAt(c, t, w, k, p, before, seqNum), CutPacket(c, p).1;
      && IsPacket(x.packet, w.field)
      && var u := HandlePacket(format, s, x.packet, w.field, todNs, env);
         if end.rowsToDo == 0 then HasLearned(c, w, seqNum + 1, u)
         else IsLearning(c, w, end, before + x.packet.data, seqNum + 1, u)
  {
    hide IsPlaceIn, PacketAt, IsLearning, HasLearned, CutPacket, Learn, IsPacket, Inv;
    hide FitsHeaders, FormatFits, SizeFits, WholeGroups, StreamFits;
    PacketIsNextPart(format, c, t, w, k, p, before, seqNum);
    LearningIsWaiting(c, w, p, before, seqNum, s);
    LearningStep(format, c, t, w, k, p, before, seqNum, s);
  }

  lemma LearningIsWaiting(c: TxConfig, w: WireFrame, p: Place, before: seq<Byte>, seqNum: nat,
                          s: RxState)
    requires IsLearning(c, w, p, before, seqNum, s)
    ensures s.isWaiting && s.calculatedSize == -1
  {
  }

  // The packets of the first frame from a place on: its size is learned.
  lemma {:induction false} FirstFramePasses(format: Format, c: TxConfig, t: Stream, w: WireFrame,
                                            k: nat, p: Place, before: seq<Byte>, seqNum: nat,
                                            s: RxState, tods: seq<nat>, envs: seq<Env>)
    requires IsFit(format, c, t)
    requires IsPlaceIn(c, w, p, before) && p.rowsToDo > 0
    requires Inv(s) && IsLearning(c, w, p, before, seqNum, s)
    requires var sent := PacketsFrom(c, t, w, k, p, before, seqNum);
      HavePayloads(sent) && |tods| == |envs| == |sent|
    ensures var sent := PacketsFrom(c, t, w, k, p, before, seqNum);
      HasLearned(c, w, seqNum + |sent|, Run(format, s, InSequence(sent, tods), envs))
    decreases p.rowsToDo, c.rowSize - p.rowOffset
  {
    hide IsPlaceIn, PacketAt, IsLearning, Inv, HasLearned, HandlePacket, PacketsFrom;
    hide HavePayloads, CutPacket, IsPacket, IsFit, Run, InSequence;
    PacketsUnfold(c, t, w, k, p, before, seqNum);
    InsideHasPlace(c, w, p, before);
    FirstPacketIsCounted(format, c, t, w, k, p, before, seqNum, s, tods[0], envs[0]);
    var x, end := PacketAt(c, t, w, k, p, before, seqNum), CutPacket(c, p).1;
    var sent := PacketsFrom(c, t, w, k, p, before, seqNum);
    var rest := PacketsFrom(c, t, w, k, end, before + x.packet.data, seqNum + 1);
    RunBegins(format, s, sent, w.field, tods, envs);
    assert sent[1..] == rest;
    var u := HandlePacket(format, s, x.packet, w.field, tods[0], envs[0]);
    if end.rowsToDo > 0 {
      FirstFramePasses(format, c, t, w, k, end, before + x.packet.data, seqNum + 1, u,
                       tods[1..], envs[1..]);
    } else {
      PacketsUnfold(c, t, w, k, end, before + x.packet.data, seqNum + 1);
      NothingLeft(format, u, rest, tods[1..], envs[1..]);
    }
  }

  // ---------------------------------------------------------------- All frames

  /** delivered are all frames but the first, up to number k, as they were sent. */
  ghost predicate AreReceived(format: Format, c: TxConfig, frames: seq<WireFrame>,
                              delivered: seq<Frame>, k: nat) {
    && 0 < k <= |frames| && |delivered| == k - 1
    && forall i | 0 < i < k ::
         IsReceived(format, c, RowsOf(c, frames[0]), delivered[i - 1], frames[i])
  }

  /** All frames before number k have passed. */
  ghost predicate HavePassed(format: Format, c: TxConfig, frames: seq<WireFrame>, seqNum: nat,
                             k: nat, s: RxState) {
    && AreReceived(format, c, frames, s.delivered, k)
    && IsClean(s, seqNum, k - 1)
    && (k < |frames| ==> IsBetween(c, frames[0], frames[k], seqNum, k - 1, s))
  }

  /** Each frame has the time of the packet that began it. */
  ghost predicate AreTimed(sent: seq<Sent>, tods: seq<nat>, delivered: seq<Frame>) {
    && |tods| == |sent|
    && forall j | 0 <= j < |sent| && sent[j].before == [] && 0 < sent[j].frame <= |delivered| ::
         delivered[sent[j].frame - 1].tod == MediaTime.FromNs(tods[j])
  }

  lemma NothingTimed(delivered: seq<Frame>)
    ensures AreTimed([], [], delivered)
  {
  }

  lemma TimedJoin(a: seq<Sent>, b: seq<Sent>, tods: seq<nat>, some: seq<Frame>, all: seq<Frame>)
    requires |tods| == |a + b| && some <= all
    requires AreTimed(a, tods[..|a|], some) && AreTimed(b, tods[|a|..], all)
    requires forall j | 0 <= j < |a| :: a[j].frame <= |some|
    ensures AreTimed(a + b, tods, all)
  {
  }

  // The first packet of a frame alone begins it.
  lemma {:induction false} OnlyOneBegins(c: TxConfig, t: Stream, w: WireFrame, k: nat, p: Place,
                                         before: seq<Byte>, seqNum: nat)
    requires IsPlaceIn(c, w, p, before)
    ensures forall x | x in PacketsFrom(c, t, w, k, p, before, seqNum) :: x.frame == k
    ensures forall j | 0 <= j < |PacketsFrom(c, t, w, k, p, before, seqNum)| ::
              before != [] || j > 0 ==> PacketsFrom(c, t, w, k, p, before, seqNum)[j].before != []
    decreases p.rowsToDo, c.rowSize - p.rowOffset
  {
    hide IsPlaceIn, CutPacket, PacketsFrom;
    PacketsUnfold(c, t, w, k, p, before, seqNum);
    if p.rowsToDo > 0 {
      var x, end := PacketAt(c, t, w, k, p, before, seqNum), CutPacket(c, p).1;
      assert x.frame == k && x.before == before;
      hide PacketAt;
      OnlyOneBegins(c, t, w, k, end, before + x.packet.data, seqNum + 1);
      var rest := PacketsFrom(c, t, w, k, end, before + x.packet.data, seqNum + 1);
      assert forall j | 0 < j < |rest| + 1 :: ([x] + rest)[j] == rest[j - 1];
    }
  }

  // What a frame's packets tell of when it began.
  lemma FrameIsTimed(c: TxConfig, t: Stream, w: WireFrame, k: nat, seqNum: nat, tods: seq<nat>,
                     delivered: seq<Frame>)
    requires Valid(c) && IsFrame(c, w) && |tods| == |FramePackets(c, t, w, k, seqNum)|
    requires |delivered| <= k && (tods != [] && 0 < k == |delivered| ==>
                                    delivered[k - 1].tod == MediaTime.FromNs(tods[0]))
    ensures AreTimed(FramePackets(c, t, w, k, seqNum), tods, delivered)
    ensures forall x | x in FramePackets(c, t, w, k, seqNum) :: x.frame == k
  {
    StartOfFrame(c, w);
    OnlyOneBegins(c, t, w, k, Place(RowsOf(c, w), 0), [], seqNum);
    hide PacketsFrom, RowsOf;
  }

  // The first frame passes.
  lemma FirstHasPassed(format: Format, c: TxConfig, frames: seq<WireFrame>, seqNum: nat,
                       s: RxState)
    requires IsSource(c, frames) && frames != []
    requires HasLearned(c, frames[0], seqNum, s)
    ensures HavePassed(format, c, frames, seqNum, 1, s)
  {
    hide LastRow, RowsOf, AreFrames, KnowsSize;
  }

  lemma NextHasPassed(format: Format, c: TxConfig, frames: seq<WireFrame>, seqNum: nat,
                      last: nat, start: nat, k: nat, s: RxState, t: RxState)
    requires 0 < k < |frames| && HavePassed(format, c, frames, seqNum, k, s)
    requires HasDelivered(format, c, frames[0], frames[k], start, last, k - 1, s, t)
    ensures HavePassed(format, c, frames, last, k + 1, t)
    ensures |t.delivered| == k && t.delivered[k - 1].tod == MediaTime.FromNs(start)
    ensures s.delivered <= t.delivered
  {
    hide IsReceived, RowsOf, KnowsSize, HasCounted;
    hide IsFielded;
    forall i | 0 < i < k + 1
      ensures IsReceived(format, c, RowsOf(c, frames[0]), t.delivered[i - 1], frames[i])
    {
      if i < k {
        assert t.delivered[i - 1] == t.delivered[..|s.delivered|][i - 1];
      }
    }
  }

  lemma FramesAreAlike(c: TxConfig, frames: seq<WireFrame>, k: nat)
    requires IsSource(c, frames) && FitsHeaders(c) && SizeFits(c) && k < |frames|
    ensures AreAlike(c, frames[0], frames[k])
    ensures IsFrame(c, frames[k]) && RowsOf(c, frames[k]) > 0
  {
    hide FitsHeaders, SizeFits, RowsOf;
  }

  // A whole later frame passes.
  lemma WholeFramePasses(format: Format, c: TxConfig, t: Stream, frames: seq<WireFrame>, k: nat,
                         seqNum: nat, s: RxState, tods: seq<nat>, envs: seq<Env>)
    requires IsFit(format, c, t) && IsSource(c, frames) && AllWell(envs)
    requires 0 < k < |frames| && Inv(s) && HavePassed(format, c, frames, seqNum, k, s)
    requires AreFrames(c, frames)
    requires var sent := FramePackets(c, t, frames[k], k, seqNum);
      HavePayloads(sent) && |tods| == |envs| == |sent|
    ensures var sent := FramePackets(c, t, frames[k], k, seqNum);
      && HavePassed(format, c, frames, seqNum + |sent|, k + 1,
                    Run(format, s, InSequence(sent, tods), envs))
      && (forall x | x in sent :: x.frame == k)
      && var u := Run(format, s, InSequence(sent, tods), envs);
         s.delivered <= u.delivered && |u.delivered| == k && AreTimed(sent, tods, u.delivered)
  {
    hide PacketsFrom, HavePayloads, Inv, AreAlike, IsSource, AllWell, HasDelivered;
    hide Run, InSequence, IsPlaceIn, IsBetween, RowsOf, IsClean, AreReceived, AreTimed;
    var w := frames[k];
    FramesAreAlike(c, frames, k);
    StartOfFrame(c, w);
    var sent := FramePackets(c, t, w, k, seqNum);
    FramePasses(format, c, t, frames[0], w, 0, k, Place(RowsOf(c, w), 0), [], seqNum, k - 1, s,
                tods, envs);
    var u := Run(format, s, InSequence(sent, tods), envs);
    NextHasPassed(format, c, frames, seqNum, seqNum + |sent|, tods[0], k, s, u);
    FrameIsTimed(c, t, w, k, seqNum, tods, u.delivered);
  }

  // A whole first frame passes.
  lemma WholeFirstFramePasses(format: Format, c: TxConfig, t: Stream, frames: seq<WireFrame>,
                              seqNum: nat, tods: seq<nat>, envs: seq<Env>)
    requires IsFit(format, c, t) && IsSource(c, frames) && frames != []
    requires AreFrames(c, frames)
    requires var sent := FramePackets(c, t, frames[0], 0, seqNum);
      HavePayloads(sent) && |tods| == |envs| == |sent|
    ensures var sent := FramePackets(c, t, frames[0], 0, seqNum);
      && HavePassed(format, c, frames, seqNum + |sent|, 1,
                    Run(format, INITIAL, InSequence(sent, tods), envs))
      && AreTimed(sent, tods, []) && forall x | x in sent :: x.frame == 0
  {
    hide PacketsFrom, HavePayloads, IsSource, HasLearned, HavePassed, AreTimed;
    hide Run, InSequence, IsPlaceIn, RowsOf, AreAlike;
    var w := frames[0];
    FramesAreAlike(c, frames, 0);
    StartOfFrame(c, w);
    var sent := FramePackets(c, t, w, 0, seqNum);
    FirstFramePasses(format, c, t, w, 0, Place(RowsOf(c, w), 0), [], seqNum, INITIAL, tods, envs);
    FirstHasPassed(format, c, frames, seqNum + |sent|,
                   Run(format, INITIAL, InSequence(sent, tods), envs));
    FrameIsTimed(c, t, w, 0, seqNum, tods, []);
  }

  // The frames from number k on pass.
  lemma {:induction false} FramesPass(format: Format, c: TxConfig, t: Stream,
                                      frames: seq<WireFrame>, k: nat, seqNum: nat, s: RxState,
                                      tods: seq<nat>, envs: seq<Env>)
    requires IsFit(format, c, t) && IsSource(c, frames) && AllWell(envs) && AreFrames(c, frames)
    requires k <= |frames| && frames != [] && Inv(s)
    requires if k == 0 then s == INITIAL else HavePassed(format, c, frames, seqNum, k, s)
    requires var sent := AllPackets(c, t, frames, k, seqNum);
      HavePayloads(sent) && |tods| == |envs| == |sent|
    ensures var sent := AllPackets(c, t, frames, k, seqNum);
      && HavePassed(format, c, frames, seqNum + |sent|, |frames|,
                    Run(format, s, InSequence(sent, tods), envs))
      && var u := Run(format, s, InSequence(sent, tods), envs);
         s.delivered <= u.delivered && AreTimed(sent, tods, u.delivered)
    decreases |frames| - k
  {
    hide IsFit, IsSource, AreFrames, FramePackets, AllPackets, Inv, HavePassed, HavePayloads;
    hide Run, InSequence, AreTimed;
    if k == |frames| {
      NoFramesLeft(c, t, frames, seqNum);
      NothingLeft(format, s, AllPackets(c, t, frames, k, seqNum), tods, envs);
      NothingTimed(s.delivered);
    } else {
      AllUnfold(c, t, frames, k, seqNum);
      FrameHasPackets(c, frames, k);
      var a := FramePackets(c, t, frames[k], k, seqNum);
      var b := AllPackets(c, t, frames, k + 1, seqNum + |a|);
      PartsHavePayloads(a, b);
      RunSplits(format, s, a, b, tods, envs);
      if k == 0 {
        WholeFirstFramePasses(format, c, t, frames, seqNum, tods[..|a|], envs[..|a|]);
      } else {
        WholeFramePasses(format, c, t, frames, k, seqNum, s, tods[..|a|], envs[..|a|]);
      }
      var u := Run(format, s, InSequence(a, tods[..|a|]), envs[..|a|]);
      FramesPass(format, c, t, frames, k + 1, seqNum + |a|, u, tods[|a|..], envs[|a|..]);
      var v := Run(format, u, InSequence(b, tods[|a|..]), envs[|a|..]);
      TimedJoin(a, b, tods, u.delivered, v.delivered);
    }
  }

  /**
   * The round trip: the packets of any frames, or fields of alternating parity, fed in order
   * to a fresh parser, deliver every frame but the first with the bytes, the field, the rows
   * and the timestamp it was sent with, in each format, and the time its first packet came;
   * no error is counted.
   */
  lemma RoundTrip(format: Format, c: TxConfig, t: Stream, frames: seq<WireFrame>, seqNum: nat,
                  tods: seq<nat>, envs: seq<Env>)
    requires IsFit(format, c, t) && IsSource(c, frames) && AllWell(envs) && frames != []
    requires AreFrames(c, frames) && |tods| == |envs| == |AllPackets(c, t, frames, 0, seqNum)|
    ensures HavePayloads(AllPackets(c, t, frames, 0, seqNum))
    ensures var s := Run(format, INITIAL, InSequence(AllPackets(c, t, frames, 0, seqNum), tods),
                         envs);
      && AreReceived(format, c, frames, s.delivered, |frames|)
      && AreTimed(AllPackets(c, t, frames, 0, seqNum), tods, s.delivered)
      && s.stats == NO_ERRORS.(framesOk := |frames| - 1)
  {
    hide AllPackets, Run, InSequence, HavePayloads, AreTimed, AreReceived, IsSource, AreFrames;
    hide IsStream;
    hide IsSent, FitsHeaders, SizeFits, FormatFits, IsBetween;
    var sent := AllPackets(c, t, frames, 0, seqNum);
    FramesAreAStream(format, frames, c, t, 0, seqNum);
    StreamHasPayloads(format, frames, seqNum, sent);
    FramesPass(format, c, t, frames, 0, seqNum, INITIAL, tods, envs);
  }

  // ---------------------------------------------------------------- How many rows

  /** The lines of a frame or field; a row of 4:2:0 video holds two. */
  function LinesOf(c: TxConfig, w: WireFrame): nat {
    RowsOf(c, w) * RowStep(c)
  }

  /** What frames delivered say of their rows. */
  ghost predicate RowsAreTold(c: TxConfig, w: WireFrame, f: Frame) {
    && (f.numRows == RowsOf(c, w) <==> IsFielded(c) || !c.is420 || RowsOf(c, w) == 1)
    && (f.numRows == LinesOf(c, w) <==> !c.is420)
    && (c.is420 ==> f.numRows == if IsFielded(c) then LinesOf(c, w) / 2 else LinesOf(c, w) - 1)
  }

  lemma RowsOfReceived(format: Format, c: TxConfig, frames: seq<WireFrame>, delivered: seq<Frame>,
                       i: nat)
    requires IsSource(c, frames) && AreReceived(format, c, frames, delivered, |frames|)
    requires 0 < i < |frames|
    ensures RowsAreTold(c, frames[i], delivered[i - 1])
  {
    assert IsReceived(format, c, RowsOf(c, frames[0]), delivered[i - 1], frames[i]);
    hide AreReceived, AreFrames, IsWhole;
    assert RowsOf(c, frames[i]) > 0;
  }

  /**
   * Every frame but the first is delivered with its number of rows if and only if it is a
   * field, or is not 4:2:0, or has one row; and with its number of lines if and only if it is
   * not 4:2:0. A whole 4:2:0 frame comes with one line less than it has.
   */
  lemma RowsAreDelivered(format: Format, c: TxConfig, t: Stream, frames: seq<WireFrame>, seqNum: nat,
                         tods: seq<nat>, envs: seq<Env>)
    requires IsFit(format, c, t) && IsSource(c, frames) && AllWell(envs) && frames != []
    requires AreFrames(c, frames) && |tods| == |envs| == |AllPackets(c, t, frames, 0, seqNum)|
    requires HavePayloads(AllPackets(c, t, frames, 0, seqNum))
    ensures var s := Run(format, INITIAL, InSequence(AllPackets(c, t, frames, 0, seqNum), tods),
                         envs);
      && |s.delivered| == |frames| - 1
      && forall i | 0 < i < |frames| :: RowsAreTold(c, frames[i], s.delivered[i - 1])
  {
    hide AllPackets, Run, InSequence, HavePayloads, IsSource, AreFrames, RowsAreTold, IsReceived;
    RoundTrip(format, c, t, frames, seqNum, tods, envs);
    var s := Run(format, INITIAL, InSequence(AllPackets(c, t, frames, 0, seqNum), tods), envs);
    forall i | 0 < i < |frames|
      ensures RowsAreTold(c, frames[i], s.delivered[i - 1])
    {
      RowsOfReceived(format, c, frames, s.delivered, i);
    }
  }

  /** 4:2:0 video of 8 bits, four lines of 320 pixels in two rows of six-byte groups. */
  const FOUR_LINES := TxConfig(2, 960, 6, 4, false, true, false, false, 1200)

  /** Frames of it, of two rows and four lines, are delivered as three rows. */
  lemma FourLinesComeAsThree(t: Stream, frames: seq<WireFrame>, seqNum: nat, tods: seq<nat>,
                             envs: seq<Env>)
    requires StreamFits(t) && |frames| == 2 && AllWell(envs)
    requires forall i | 0 <= i < 2 ::
               && |frames[i].wire| == 2 * 960 && 0 <= frames[i].timestamp < W32 && !frames[i].field
    requires AreFrames(FOUR_LINES, frames)
    requires |tods| == |envs| == |AllPackets(FOUR_LINES, t, frames, 0, seqNum)|
    requires HavePayloads(AllPackets(FOUR_LINES, t, frames, 0, seqNum))
    ensures var s := Run(AsSent, INITIAL,
                         InSequence(AllPackets(FOUR_LINES, t, frames, 0, seqNum), tods), envs);
      |s.delivered| == 1 && s.delivered[0].numRows == 3
  {
    hide AllPackets, Run, InSequence, HavePayloads, IsFit, AreFrames, IsSource, RowsAreTold;
    FourLinesFit(t);
    FourLinesAreFrames(frames);
    RowsAreDelivered(AsSent, FOUR_LINES, t, frames, seqNum, tods, envs);
    var s := Run(AsSent, INITIAL, InSequence(AllPackets(FOUR_LINES, t, frames, 0, seqNum), tods),
                 envs);
    FourLinesAreTold(frames[1], s.delivered[0]);
  }

  lemma FourLinesAreTold(w: WireFrame, f: Frame)
    requires RowsAreTold(FOUR_LINES, w, f)
    ensures f.numRows == 3
  {
  }

  lemma FourLinesFit(t: Stream)
    requires StreamFits(t)
    ensures IsFit(AsSent, FOUR_LINES, t)
  {
  }

  lemma FourLinesAreFrames(frames: seq<WireFrame>)
    requires |frames| == 2
    requires forall i | 0 <= i < 2 ::
               && |frames[i].wire| == 2 * 960 && 0 <= frames[i].timestamp < W32 && !frames[i].field
    ensures IsSource(FOUR_LINES, frames)
  {
  }

  // ---------------------------------------------------------------- Whether it is 4:2:0

  /**
   * By how many rows the last packet of a frame that has something of further rows than the
   * one before it goes further, from p on; so far it was jump.
   */
  function LastJump(c: TxConfig, rows: nat, p: Place, jump: int): int
    requires Valid(c) && IsPlace(c, p) && p.rowOffset % c.pgroupBytes == 0
    decreases p.rowsToDo, c.rowSize - p.rowOffset
  {
    if p.rowsToDo == 0 then jump
    else
      var end := CutPacket(c, p).1;
      var more := RowsSeen(rows, end) - RowsSeen(rows, p);
      LastJump(c, rows, end, if RowsSeen(rows, p) == 0 || more == 0 then jump else more)
  }

  lemma {:induction false} SeemsByJump(c: TxConfig, rows: nat, p: Place, jump: int)
    requires Valid(c) && IsPlace(c, p) && p.rowOffset % c.pgroupBytes == 0
    ensures SeemsFrom(c, rows, p, jump * RowStep(c) == 2)
       <==> LastJump(c, rows, p, jump) * RowStep(c) == 2
    decreases p.rowsToDo, c.rowSize - p.rowOffset
  {
    hide CutPacket, RowStep;
    if p.rowsToDo > 0 {
      var end := CutPacket(c, p).1;
      var more := RowsSeen(rows, end) - RowsSeen(rows, p);
      SeemsByJump(c, rows, end, if RowsSeen(rows, p) == 0 || more == 0 then jump else more);
    }
  }

  /** The flag is right if the last packet to do so goes on by one row, or, not 4:2:0, not by two. */
  predicate IsJumpClear(c: TxConfig, rows: nat)
    requires Valid(c)
  {
    var jump := LastJump(c, rows, Place(rows, 0), 0);
    if c.is420 then jump == 1 else jump != 2
  }

  /**
   * Every frame but the first is delivered with the flag of 4:2:0 video that its stream has if
   * and only if the packets of the first frame make that clear.
   */
  lemma FlagIsDelivered(format: Format, c: TxConfig, t: Stream, frames: seq<WireFrame>, seqNum: nat,
                        tods: seq<nat>, envs: seq<Env>)
    requires IsFit(format, c, t) && IsSource(c, frames) && AllWell(envs) && frames != []
    requires AreFrames(c, frames) && |tods| == |envs| == |AllPackets(c, t, frames, 0, seqNum)|
    requires HavePayloads(AllPackets(c, t, frames, 0, seqNum)) && Valid(c)
    ensures var s := Run(format, INITIAL, InSequence(AllPackets(c, t, frames, 0, seqNum), tods),
                         envs);
      && |s.delivered| == |frames| - 1
      && forall f | f in s.delivered ::
           f.is420 == c.is420 <==> IsJumpClear(c, RowsOf(c, frames[0]))
  {
    hide AllPackets, Run, InSequence, HavePayloads, IsSource, AreFrames, IsReceived, IsJumpClear;
    RoundTrip(format, c, t, frames, seqNum, tods, envs);
    var s := Run(format, INITIAL, InSequence(AllPackets(c, t, frames, 0, seqNum), tods), envs);
    forall f | f in s.delivered
      ensures f.is420 == c.is420 <==> IsJumpClear(c, RowsOf(c, frames[0]))
    {
      var i :| 0 <= i < |s.delivered| && s.delivered[i] == f;
      OneIsReceived(format, c, frames, s.delivered, i + 1);
      FlagOfReceived(format, c, RowsOf(c, frames[0]), f, frames[i + 1]);
    }
  }

  lemma OneIsReceived(format: Format, c: TxConfig, frames: seq<WireFrame>, delivered: seq<Frame>,
                      i: nat)
    requires AreReceived(format, c, frames, delivered, |frames|) && 0 < i < |frames|
    ensures |delivered| == |frames| - 1
    ensures IsReceived(format, c, RowsOf(c, frames[0]), delivered[i - 1], frames[i])
  {
  }

  lemma FlagOfReceived(format: Format, c: TxConfig, rows: nat, f: Frame, w: WireFrame)
    requires IsReceived(format, c, rows, f, w)
    ensures Valid(c) && (f.is420 == c.is420 <==> IsJumpClear(c, rows))
  {
    hide LastJump, SeemsFrom, IsWhole, IsFielded, LastRow, RowsOf;
    SeemsByJump(c, rows, Place(rows, 0), 0);
  }

  /** They do for frames of two rows and more, sent a row at a time or less. */
  lemma OneRowAtATime(c: TxConfig, rows: nat)
    requires Valid(c) && rows >= 2 && (c.oneLinePerPacket || c.payloadSize <= c.rowSize)
    ensures IsJumpClear(c, rows)
  {
    JumpsByOne(c, rows, Place(rows, 0), 0);
  }

  lemma {:induction false} JumpsByOne(c: TxConfig, rows: nat, p: Place, jump: int)
    requires Valid(c) && IsPlace(c, p) && p.rowOffset % c.pgroupBytes == 0 && p.rowsToDo <= rows
    requires c.oneLinePerPacket || c.payloadSize <= c.rowSize
    requires rows >= 2 && (RowsSeen(rows, p) == rows ==> jump == 1)
    ensures LastJump(c, rows, p, jump) == 1
    decreases p.rowsToDo, c.rowSize - p.rowOffset
  {
    if p.rowsToDo > 0 {
      OneRowOn(c, rows, p);
      hide CutPacket;
      var end := CutPacket(c, p).1;
      var more := RowsSeen(rows, end) - RowsSeen(rows, p);
      JumpsByOne(c, rows, end, if RowsSeen(rows, p) == 0 || more == 0 then jump else more);
    }
  }

  lemma OneRowOn(c: TxConfig, rows: nat, p: Place)
    requires Valid(c) && IsPlace(c, p) && p.rowOffset % c.pgroupBytes == 0
    requires c.oneLinePerPacket || c.payloadSize <= c.rowSize
    requires 0 < p.rowsToDo <= rows
    ensures var more := RowsSeen(rows, CutPacket(c, p).1) - RowsSeen(rows, p);
      (more == 0 || more == 1) && (RowsSeen(rows, p) == 0 ==> more == 1)
  {
    HeadersHaveRoom(c, p);
    var n, left := NumRowHeaders(c, c.rowSize - p.rowOffset, p.rowsToDo), c.rowSize - p.rowOffset;
    var q, used := AfterNext(c, p, 0), NextSegment(c, p, 0).length;
    assert CutPacket(c, p).1 == Cut(c, q, n - 1, used).1;
    if n == 1 {
      assert Cut(c, q, 0, used).1 == q;
    } else {
      assert n == 2 && q == Place(p.rowsToDo - 1, 0) && used == left;
      var end := AfterNext(c, q, used);
      assert Cut(c, end, 0, used + NextSegment(c, q, used).length).1 == end;
      assert Cut(c, q, 1, used).1 == end && end.rowsToDo == q.rowsToDo;
    }
  }

  /** 4:2:2 video of 8 bits and 284 pixels a row, two rows to a packet. */
  const TWO_ROWS := TxConfig(4, 568, 4, 2, false, false, false, false, 1136)

  /** Of four rows of it the second packet goes on by two rows: it is taken for 4:2:0 video. */
  lemma TwoRowsSeem420()
    ensures !IsJumpClear(TWO_ROWS, 4) && !TWO_ROWS.is420
  {
    assert CutPacket(TWO_ROWS, Place(4, 0)).1 == Place(2, 0);
    assert CutPacket(TWO_ROWS, Place(2, 0)).1 == Place(0, 0);
  }

  // ---------------------------------------------------------------- What was in the frames

  /** The format a receiver asks for to get frames as they were sent. */
  function SameFormat(source: Source): Format {
    if source.FromUyvy10? then Uyvy10 else AsSent
  }

  /** A frame received in the format it was sent in is the frame that was sent. */
  lemma ReceivedAsSent(source: Source, c: TxConfig, rows: nat, f: Frame, w: WireFrame,
                       data: seq<Byte>)
    requires w.wire == Wire(source, data)
    requires source.FromUyvy10? ==> |data| % 5 == 0
    requires IsReceived(SameFormat(source), c, rows, f, w)
    ensures data <= f.data && f.numValid == |data| && f.rtpTime == w.timestamp
    ensures f.field == if w.field then 1 else 0
  {
    hide Convert, LastRow, RowsOf;
    if source.FromUyvy10? {
      ConversionsAreInverse(ToPg10, ToUyvy10, data);
    }
  }
}
