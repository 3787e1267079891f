// A packet of ST 2110-20 video, and how the parser reads it back.

module VideoPackets {
  import opened Arithmetic
  import opened Bytes
  import opened Headers
  import opened VideoParser

  /** What a video packet says: its RTP fields, its row segments and their bytes. */
  datatype Packet = Packet(marker: bool, payloadType: int, seqNum: int, timestamp: int, ssrc: int,
                           srds: seq<Srd>, data: seq<Byte>)

  /**
   * A packet as the packetizer makes it: one to three segments, none empty, all of one
   * field, each header but the last continued, and exactly their bytes.
   */
  ghost predicate IsPacket(p: Packet, field: bool) {
    && 0 <= p.payloadType < 0x80 && 0 <= p.seqNum < W32 && 0 <= p.timestamp < W32
    && 0 <= p.ssrc < W32
    && 1 <= |p.srds| <= 3 && DataBytes(p.srds) == |p.data|
    && forall i | 0 <= i < |p.srds| ::
         && SrdFits(p.srds[i]) && p.srds[i].length > 0
         && p.srds[i].field == field
         && p.srds[i].continuation == (i + 1 < |p.srds|)
  }

  function RtpOf(p: Packet): Rtp {
    Rtp(p.marker, p.payloadType, p.seqNum % 0x10000, p.timestamp, p.ssrc)
  }

  /** What follows the RTP header: the upper sequence number, the row headers and the data. */
  function Body(p: Packet): (s: seq<Byte>)
    requires 0 <= p.seqNum < W32
    ensures |s| == ESN_SIZE + SRD_SIZE * |p.srds| + |p.data|
  {
    Put16(p.seqNum / 0x10000) + SrdsBytes(p.srds) + p.data
  }

  /** What a packet is on the wire, from its RTP header on. */
  function Payload(p: Packet): (s: seq<Byte>)
    requires 0 <= p.seqNum < W32 && RtpFits(RtpOf(p))
    ensures |s| == RTP_HEADER_SIZE + ESN_SIZE + SRD_SIZE * |p.srds| + |p.data|
  {
    RtpBytes(RtpOf(p)) + Body(p)
  }

  // Reading the row headers that follow those already read.
  lemma {:induction false} ReadRest(before: seq<Byte>, done: seq<Srd>, rows: seq<Srd>,
                                    data: seq<Byte>, field: bool, interlaced: bool, known: bool)
    requires |rows| >= 1 && |done| + |rows| <= 3
    requires AllFit(done)
    requires forall i | 0 <= i < |rows| ::
               && SrdFits(rows[i]) && rows[i].length > 0 && rows[i].field == field
               && rows[i].continuation == (i + 1 < |rows|)
    ensures ReadRows(before + SrdsBytes(rows) + data, |before|, done, interlaced, known)
         == if field && !interlaced && known then UnexpectedField
            else Rows(done + rows, interlaced || field)
    decreases |rows|
  {
    hide SrdBytes;
    var payload := before + SrdsBytes(rows) + data;
    var rest := SrdsBytes(rows[1..]) + data;
    assert payload == before + SrdBytes(rows[0]) + rest;
    assert payload[|before|..] == SrdBytes(rows[0]) + rest;
    SrdRoundTrip(rows[0], rest);
    if rows[0].continuation && !(field && !interlaced && known) {
      var next := before + SrdBytes(rows[0]);
      assert payload == next + SrdsBytes(rows[1..]) + data;
      ReadRest(next, done + [rows[0]], rows[1..], data, field, interlaced || field, known);
      assert done + [rows[0]] + rows[1..] == done + rows;
    } else {
      assert done + [rows[0]] == done + rows || |rows| > 1;
    }
  }

  /** What the parser does with a packet it has read. */
  ghost function HandlePacket(format: Format, s: RxState, p: Packet, field: bool, todNs: nat,
                              env: Env): (t: RxState)
    requires Inv(s) && IsPacket(p, field)
    ensures Inv(t)
  {
    assert AllFit(p.srds);
    if field && !s.isInterlaced && s.calculatedSize != -1 then SizeError(s)
    else HandleRows(format, s.(isInterlaced := s.isInterlaced || field), RtpOf(p), p.seqNum,
                    p.srds, p.data, todNs, env)
  }

  lemma BodyIsRead(format: Format, s: RxState, p: Packet, field: bool, todNs: nat, env: Env)
    requires Inv(s) && IsPacket(p, field)
    ensures HandleBody(format, s, RtpOf(p), Body(p), todNs, env)
         == HandlePacket(format, s, p, field, todNs, env)
  {
    hide HandleRows, SizeError, SrdsBytes, DataBytes, Put16, Get16;
    var esn := Put16(p.seqNum / 0x10000);
    ReadRest(esn, [], p.srds, p.data, field, s.isInterlaced, s.calculatedSize != -1);
    assert [] + p.srds == p.srds;
    assert Body(p)[ESN_SIZE + SRD_SIZE * |p.srds|..] == p.data;
    SequenceIsRead(p);
  }

  lemma SequenceIsRead(p: Packet)
    requires 0 <= p.seqNum < W32
    ensures SeqNum(Body(p), RtpOf(p)) == p.seqNum
  {
    assert Body(p)[0..2] == Put16(p.seqNum / 0x10000);
    assert Body(p)[0..] == Body(p);
    Get16At(Body(p), 0, p.seqNum / 0x10000);
  }

  /** The parser reads back from a payload the packet it was made of. */
  lemma PacketIsRead(format: Format, s: RxState, p: Packet, field: bool, todNs: nat, env: Env)
    requires Inv(s) && IsPacket(p, field)
    ensures Step(format, s, Arrived(Datagram(Payload(p), todNs)), env)
         == HandlePacket(format, s, p, field, todNs, env)
  {
    hide HandleBody, HandlePacket, ReadRtp, RtpBytes, Body;
    BodyIsRead(format, s, p, field, todNs, env);
    RtpRoundTrip(RtpOf(p), Body(p));
    assert Payload(p)[RTP_HEADER_SIZE..] == Body(p);
  }
}
