// Source/AvFifo/DtAvPacket.c: the RTP header and ST 2110-20's row headers.

module Headers {
  import opened Bytes

  const RTP_HEADER_SIZE: nat := 12
  const ESN_SIZE: nat := 2
  const SRD_SIZE: nat := 6

  // ---------------------------------------------------------------- RTP

  datatype Rtp = Rtp(marker: bool, payloadType: int, sequenceNumber: int, timestamp: int, ssrc: int)

  /** The fields fit the header. */
  predicate RtpFits(r: Rtp) {
    && 0 <= r.payloadType < 0x80 && 0 <= r.sequenceNumber < 0x10000
    && 0 <= r.timestamp < 0x1_0000_0000 && 0 <= r.ssrc < 0x1_0000_0000
  }

  /** The header of RFC 3550, section 5.1, of version 2. */
  function RtpBytes(r: Rtp): (s: seq<Byte>)
    requires RtpFits(r)
    ensures |s| == RTP_HEADER_SIZE
  {
    [0x80, ToByte((if r.marker then 0x80 else 0) + r.payloadType)]
    + Put16(r.sequenceNumber)
    + Put16(r.timestamp / 0x10000) + Put16(r.timestamp % 0x10000)
    + Put16(r.ssrc / 0x10000) + Put16(r.ssrc % 0x10000)
  }

  function ReadRtp(s: seq<Byte>): Rtp
    requires |s| >= RTP_HEADER_SIZE
  {
    Rtp(Value(s[1]) >= 0x80, Value(s[1]) % 0x80, Get16(s[2..]),
        Get16(s[4..]) * 0x10000 + Get16(s[6..]), Get16(s[8..]) * 0x10000 + Get16(s[10..]))
  }

  /** Reading a header gives back the fields written. */
  lemma RtpRoundTrip(r: Rtp, rest: seq<Byte>)
    requires RtpFits(r)
    ensures ReadRtp(RtpBytes(r) + rest) == r
  {
    hide Put16, Get16;
    var s := RtpBytes(r) + rest;
    assert s[1] == ToByte((if r.marker then 0x80 else 0) + r.payloadType);
    Get16At(s, 2, r.sequenceNumber);
    Get16At(s, 4, r.timestamp / 0x10000);
    Get16At(s, 6, r.timestamp % 0x10000);
    Get16At(s, 8, r.ssrc / 0x10000);
    Get16At(s, 10, r.ssrc % 0x10000);
  }

  // A 16-bit value written at position at is read there.
  lemma Get16At(s: seq<Byte>, at: nat, v: int)
    requires at + 2 <= |s| && 0 <= v < 0x10000
    requires s[at..at + 2] == Put16(v)
    ensures Get16(s[at..]) == v
  {
    assert s[at..][..2] == s[at..at + 2];
    assert s[at..][0] == Put16(v)[0] && s[at..][1] == Put16(v)[1];
  }

  // ---------------------------------------------------------------- Row headers

  /** A sample row data header: where in the picture a row segment goes. */
  datatype Srd = Srd(length: int, field: bool, row: int, continuation: bool, offset: int)

  /** The fields fit the header; RFC 4175, section 4.2. */
  predicate SrdFits(r: Srd) {
    0 <= r.length < 0x10000 && 0 <= r.row < 0x8000 && 0 <= r.offset < 0x8000
  }

  /** A field's cut of what does not fit 16 and 15 bits. */
  function CutSrd(r: Srd): (c: Srd)
    ensures SrdFits(c)
    ensures SrdFits(r) ==> c == r
  {
    Srd(r.length % 0x10000, r.field, r.row % 0x8000, r.continuation, r.offset % 0x8000)
  }

  function SrdBytes(r: Srd): (s: seq<Byte>)
    ensures |s| == SRD_SIZE
  {
    Put16(r.length % 0x10000)
    + Put16((if r.field then 0x8000 else 0) + r.row % 0x8000)
    + Put16((if r.continuation then 0x8000 else 0) + r.offset % 0x8000)
  }

  function ReadSrd(s: seq<Byte>): (r: Srd)
    requires |s| >= SRD_SIZE
    ensures SrdFits(r)
  {
    var row, offset := Get16(s[2..]), Get16(s[4..]);
    Srd(Get16(s), row >= 0x8000, row % 0x8000, offset >= 0x8000, offset % 0x8000)
  }

  /** Reading a row header gives back what was written, cut to what its fields hold. */
  lemma SrdRoundTrip(r: Srd, rest: seq<Byte>)
    ensures ReadSrd(SrdBytes(r) + rest) == CutSrd(r)
  {
    hide Put16, Get16;
    var s := SrdBytes(r) + rest;
    Get16At(s, 0, r.length % 0x10000);
    Get16At(s, 2, (if r.field then 0x8000 else 0) + r.row % 0x8000);
    Get16At(s, 4, (if r.continuation then 0x8000 else 0) + r.offset % 0x8000);
    assert s[0..] == s;
  }

  /** Row headers one after another. */
  function SrdsBytes(rows: seq<Srd>): (s: seq<Byte>)
    ensures |s| == SRD_SIZE * |rows|
  {
    if rows == [] then [] else SrdBytes(rows[0]) + SrdsBytes(rows[1..])
  }

  lemma {:induction false} SrdsAppend(rows: seq<Srd>, r: Srd)
    ensures SrdsBytes(rows + [r]) == SrdsBytes(rows) + SrdBytes(r)
  {
    hide SrdBytes;
    if rows == [] {
      assert SrdsBytes([r][1..]) == [];
    } else {
      SrdsAppend(rows[1..], r);
      assert (rows + [r])[1..] == rows[1..] + [r];
    }
  }
}
