// Examples/Common/ExampleTsStream.c: tables and pictures in transport stream packets.

/**
 * The packets of the stream, and a demultiplexer written from ISO/IEC 13818-1, section 2.4.3.
 */
module TsPackets {
  import opened Bytes

  const TS_SIZE: nat := 188
  const PID_PAT: nat := 0
  const PID_SDT: nat := 0x11
  const PID_PMT: nat := 0x1000
  const PID_VIDEO: nat := 0x100
  const PID_NULL: nat := 0x1FFF

  // ---------------------------------------------------------------- Packets

  function Fill(b: Byte, n: nat): (s: seq<Byte>)
    ensures |s| == n
  {
    seq(n, _ => b)
  }

  /** The four bytes that a packet starts with; control tells of an adaptation field and a payload. */
  function HeaderBytes(pid: nat, start: bool, control: nat, cc: nat): (s: seq<Byte>)
    requires pid < 0x2000 && control < 4
    ensures |s| == 4
  {
    [0x47, ToByte((if start then 0x40 else 0) + pid / 256), ToByte(pid % 256),
     ToByte(control * 16 + cc % 16)]
  }

  /** An adaptation field of so many bytes, its length included: a clock reference, or stuffing. */
  function AdaptationBytes(size: nat, pcr: seq<Byte>): (s: seq<Byte>)
    requires size <= 184 && (pcr == [] || (|pcr| == 6 && size >= 8))
    ensures |s| == size
  {
    if size == 0 then []
    else if size == 1 then [0]
    else [ToByte(size - 1), if pcr == [] then 0x00 else 0x10] + pcr + Fill(0xFF, size - 2 - |pcr|)
  }

  /** A packet of video; the first of a frame has a clock reference. */
  function VideoPacket(cc: nat, pcr: seq<Byte>, payload: seq<Byte>): (s: seq<Byte>)
    requires 0 < |payload| && (if pcr == [] then |payload| <= 184
                               else |pcr| == 6 && |payload| <= 176)
    ensures |s| == TS_SIZE
  {
    var size := 184 - |payload|;
    HeaderBytes(PID_VIDEO, pcr != [], if size > 0 then 3 else 1, cc)
    + AdaptationBytes(size, pcr) + payload
  }

  // ---------------------------------------------------------------- The demultiplexer

  datatype Parsed = NoPacket | Parsed(pid: nat, start: bool, cc: nat, payload: seq<Byte>)

  /** The fields of a packet, and its payload behind the adaptation field. */
  function Parse(p: seq<Byte>): Parsed {
    if |p| != TS_SIZE || p[0] != 0x47 then NoPacket
    else
      var control := Value(p[3]) / 16 % 4;
      var pid := Value(p[1]) % 32 * 256 + Value(p[2]);
      var at := if control >= 2 then 5 + Value(p[4]) else 4;
      if control % 2 == 0 || at > TS_SIZE then Parsed(pid, Value(p[1]) / 64 % 2 == 1,
                                                      Value(p[3]) % 16, [])
      else Parsed(pid, Value(p[1]) / 64 % 2 == 1, Value(p[3]) % 16, p[at..])
  }

  /** A packet of video is parsed to the payload it was made of. */
  lemma VideoIsParsed(cc: nat, pcr: seq<Byte>, payload: seq<Byte>)
    requires 0 < |payload| && (if pcr == [] then |payload| <= 184
                               else |pcr| == 6 && |payload| <= 176)
    ensures Parse(VideoPacket(cc, pcr, payload))
         == Parsed(PID_VIDEO, pcr != [], cc % 16, payload)
  {
    var size := 184 - |payload|;
    var control := if size > 0 then 3 else 1;
    HeaderIsParsed(PID_VIDEO, pcr != [], control, cc);
    AdaptationIsFound(size, pcr);
    var header, adaptation := HeaderBytes(PID_VIDEO, pcr != [], control, cc),
                              AdaptationBytes(size, pcr);
    hide HeaderBytes, AdaptationBytes, Fill;
    PacketParts(header, adaptation, payload);
  }

  lemma PacketParts(header: seq<Byte>, adaptation: seq<Byte>, payload: seq<Byte>)
    requires |header| == 4
    ensures var p := header + adaptation + payload;
      && p[0] == header[0] && p[1] == header[1] && p[2] == header[2] && p[3] == header[3]
      && p[4 + |adaptation|..] == payload && (adaptation != [] ==> p[4] == adaptation[0])
  {
  }

  lemma HeaderIsParsed(pid: nat, start: bool, control: nat, cc: nat)
    requires pid < 0x2000 && control < 4
    ensures var h := HeaderBytes(pid, start, control, cc);
      && h[0] == 0x47 && Value(h[1]) % 32 * 256 + Value(h[2]) == pid
      && (Value(h[1]) / 64 % 2 == 1 <==> start)
      && Value(h[3]) / 16 % 4 == control && Value(h[3]) % 16 == cc % 16
  {
  }

  lemma AdaptationIsFound(size: nat, pcr: seq<Byte>)
    requires 0 <= size <= 184 && (pcr == [] || (|pcr| == 6 && size >= 8))
    ensures size > 0 ==> Value(AdaptationBytes(size, pcr)[0]) == size - 1
  {
  }

  // ---------------------------------------------------------------- Sections

  /** One bit of the division by the generator polynomial. */
  function CrcBit(crc: bv32): bv32 {
    if crc & 0x8000_0000 != 0 then (crc << 1) ^ 0x04C1_1DB7 else crc << 1
  }

  /**
   * ISO/IEC 13818-1, annex A: the generator is of degree 32 with these other terms, and the division
   * starts from ones.
   */
  lemma GeneratorIs()
    ensures CrcBit(0x8000_0000)
         == (1 << 26) | (1 << 23) | (1 << 22) | (1 << 16) | (1 << 12) | (1 << 11) | (1 << 10)
            | (1 << 8) | (1 << 7) | (1 << 5) | (1 << 4) | (1 << 2) | (1 << 1) | 1
    ensures Crc32([]) == 0 - 1
  {
  }

  function CrcBits(crc: bv32, n: nat): bv32
    decreases n
  {
    if n == 0 then crc else CrcBits(CrcBit(crc), n - 1)
  }

  function CrcByte(crc: bv32, b: Byte): bv32 {
    CrcBits(crc ^ ((b as bv32) << 24), 8)
  }

  /** The remainder after some bytes. */
  function CrcFrom(crc: bv32, s: seq<Byte>): bv32
    decreases |s|
  {
    if s == [] then crc else CrcFrom(CrcByte(crc, s[0]), s[1..])
  }

  function Crc32(s: seq<Byte>): bv32 {
    CrcFrom(0xFFFF_FFFF, s)
  }

  function TopByte(crc: bv32): Byte {
    ((crc >> 24) & 0xFF) as bv8
  }

  function CrcBytes(crc: bv32): seq<Byte> {
    [TopByte(crc), TopByte(Up(crc, 8)), TopByte(Up(crc, 16)), TopByte(Up(crc, 24))]
  }

  // A remainder shifted up, and what is below its top byte.
  function Up(crc: bv32, k: nat): bv32
  {
    match k
    case 0 => crc
    case 1 => crc << 1
    case 2 => crc << 2
    case 3 => crc << 3
    case 4 => crc << 4
    case 5 => crc << 5
    case 6 => crc << 6
    case 7 => crc << 7
    case 8 => crc << 8
    case 16 => crc << 16
    case _ => crc << 24
  }

  function Below(crc: bv32): bv32 {
    crc & 0x00FF_FFFF
  }

  // The top byte of the remainder, fed back, shifts it out.
  lemma TopByteOut(crc: bv32)
    ensures crc ^ ((TopByte(crc) as bv32) << 24) == Up(Below(crc), 0)
    ensures Up(Below(crc), 8) == Up(crc, 8)
  {
  }

  lemma NoTopBit(crc: bv32, k: nat)
    requires k < 8
    ensures CrcBit(Up(Below(crc), k)) == Up(Below(crc), k + 1)
  {
    hide CrcBit, Below;
    NoTopBits(crc);
  }

  lemma NoTopBits(crc: bv32)
    ensures var c := Below(crc);
      && CrcBit(c) == c << 1 && CrcBit(c << 1) == c << 2 && CrcBit(c << 2) == c << 3
      && CrcBit(c << 3) == c << 4 && CrcBit(c << 4) == c << 5 && CrcBit(c << 5) == c << 6
      && CrcBit(c << 6) == c << 7 && CrcBit(c << 7) == c << 8
  {
  }

  lemma {:induction false} ShiftsOut(crc: bv32, k: nat)
    requires k <= 8
    ensures CrcBits(Up(Below(crc), k), 8 - k) == Up(Below(crc), 8)
    decreases 8 - k
  {
    hide CrcBit, Up, Below;
    if k < 8 {
      NoTopBit(crc, k);
      ShiftsOut(crc, k + 1);
    }
  }

  lemma CrcByteOut(crc: bv32)
    ensures CrcByte(crc, TopByte(crc)) == Up(crc, 8)
  {
    hide CrcBits, Up, Below, TopByte;
    TopByteOut(crc);
    ShiftsOut(crc, 0);
  }

  lemma UpAddsUp(crc: bv32)
    ensures Up(Up(crc, 8), 8) == Up(crc, 16) && Up(Up(crc, 16), 8) == Up(crc, 24)
    ensures Up(Up(crc, 24), 8) == 0
  {
  }

  lemma {:induction false} CrcOfMore(crc: bv32, a: seq<Byte>, b: seq<Byte>)
    ensures CrcFrom(crc, a + b) == CrcFrom(CrcFrom(crc, a), b)
    decreases |a|
  {
    hide CrcByte;
    if a == [] {
      assert a + b == b;
    } else {
      assert (a + b)[1..] == a[1..] + b;
      CrcOfMore(CrcByte(crc, a[0]), a[1..], b);
    }
  }

  /** A section with its own CRC behind it has a remainder of zero, as a receiver checks. */
  lemma SectionChecks(body: seq<Byte>)
    ensures Crc32(body + CrcBytes(Crc32(body))) == 0
  {
    hide CrcByte, TopByte, Up;
    var crc := Crc32(body);
    CrcOfMore(0xFFFF_FFFF, body, CrcBytes(crc));
    FourBytesOut(crc);
  }

  lemma FourBytesOut(crc: bv32)
    ensures CrcFrom(crc, CrcBytes(crc)) == 0
  {
    hide CrcByte, TopByte, Up;
    CrcByteOut(crc);
    CrcByteOut(Up(crc, 8));
    CrcByteOut(Up(crc, 16));
    CrcByteOut(Up(crc, 24));
    UpAddsUp(crc);
    var b := CrcBytes(crc);
    assert b[1..][1..] == b[2..] && b[2..][1..] == b[3..] && b[3..][1..] == [];
    assert CrcFrom(Up(crc, 24), b[3..]) == 0;
    assert CrcFrom(Up(crc, 16), b[2..]) == 0;
    assert CrcFrom(Up(crc, 8), b[1..]) == 0;
  }
}
