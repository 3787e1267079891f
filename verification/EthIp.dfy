// Source/DtPcie/DtEthIp.c: what the card reads and writes before each Ethernet frame.

module EthIp {
  import opened Arithmetic
  import opened Bytes

  // ---------------------------------------------------------------- Bit fields

  /** A value and how many bits it is written in. */
  datatype Field = Field(value: int, width: nat)

  /** What a field of a word adds to it, for a value that may be too large or negative. */
  function InsertBits(value: int, first: nat, width: nat): nat {
    value % Pow2(width) * Pow2(first)
  }

  /** The value of a field of a word. */
  function ExtractBits(word: nat, first: nat, width: nat): nat {
    word / Pow2(first) % Pow2(width)
  }

  function Width(fields: seq<Field>): nat {
    if fields == [] then 0 else fields[0].width + Width(fields[1..])
  }

  /** Fields one above the other from bit first on; no bits meet, so that they can be added. */
  function Word(fields: seq<Field>, first: nat): nat {
    if fields == [] then 0
    else InsertBits(fields[0].value, first, fields[0].width)
         + Word(fields[1..], first + fields[0].width)
  }

  // Fields that start at bit first are a multiple of its weight.
  lemma {:induction false} WordFrom(fields: seq<Field>, first: nat)
    ensures Word(fields, first) == Pow2(first) * Word(fields, 0)
    decreases |fields|
  {
    if fields != [] {
      var f, rest := fields[0], fields[1..];
      WordFrom(rest, first + f.width);
      WordFrom(rest, f.width);
      Pow2Adds(first, f.width);
      Pow2Adds(0, 0);
      Distribute(Pow2(first), f.value % Pow2(f.width), Pow2(f.width), Word(rest, 0));
    }
  }

  lemma Distribute(p: nat, v: nat, q: nat, w: nat)
    ensures p * (v * 1 + q * w) == v * p + (p * q) * w
  {
    assert p * (v + q * w) == p * v + p * (q * w);
    assert p * (q * w) == (p * q) * w;
  }

  // What is above the lowest field, and the field.
  lemma LowestField(f: Field, rest: seq<Field>)
    ensures Word([f] + rest, 0) % Pow2(f.width) == f.value % Pow2(f.width)
    ensures Word([f] + rest, 0) / Pow2(f.width) == Word(rest, 0)
  {
    WordFrom(rest, f.width);
    assert ([f] + rest)[1..] == rest;
    var m := Pow2(f.width);
    assert Word([f] + rest, 0) == f.value % m + m * Word(rest, 0);
    AboveBelow(f.value % m, m, Word(rest, 0));
  }

  lemma AboveBelow(low: nat, m: nat, high: nat)
    requires low < m
    ensures (low + m * high) % m == low && (low + m * high) / m == high
  {
    DivUnique(low + m * high, m, high) by {
      assert high * m == m * high;
    }
    DivBounds(low + m * high, m);
  }

  /** Each field is read back from where it was written, as far as it fits. */
  lemma {:induction false} FieldIsRead(fields: seq<Field>, i: nat)
    requires i < |fields|
    ensures ExtractBits(Word(fields, 0), Width(fields[..i]), fields[i].width)
         == fields[i].value % Pow2(fields[i].width)
    decreases |fields|
  {
    var f, rest := fields[0], fields[1..];
    assert fields == [f] + rest;
    LowestField(f, rest);
    if i > 0 {
      FieldIsRead(rest, i - 1);
      assert fields[..i][1..] == rest[..i - 1] && fields[..i][0] == f;
      var below := Width(rest[..i - 1]);
      Pow2Adds(f.width, below);
      DivDiv(Word(fields, 0), Pow2(f.width), Pow2(below));
    } else {
      assert fields[..0] == [];
    }
  }

  /** The bits that fields start at. */
  predicate AreStarts(fields: seq<Field>, starts: seq<nat>) {
    && |starts| == |fields| && (starts != [] ==> starts[0] == 0)
    && forall i | 0 < i < |fields| :: starts[i] == starts[i - 1] + fields[i - 1].width
  }

  lemma {:induction false} WidthAppend(fields: seq<Field>, f: Field)
    ensures Width(fields + [f]) == Width(fields) + f.width
  {
    if fields == [] {
      assert [f][1..] == [];
    } else {
      WidthAppend(fields[1..], f);
      assert (fields + [f])[1..] == fields[1..] + [f];
    }
  }

  lemma {:induction false} WidthToStart(fields: seq<Field>, starts: seq<nat>, i: nat)
    requires AreStarts(fields, starts) && i < |fields|
    ensures Width(fields[..i]) == starts[i]
  {
    if i > 0 {
      WidthToStart(fields, starts, i - 1);
      WidthAppend(fields[..i - 1], fields[i - 1]);
      assert fields[..i] == fields[..i - 1] + [fields[i - 1]];
    }
  }

  lemma FieldsAreRead(fields: seq<Field>, starts: seq<nat>)
    requires AreStarts(fields, starts)
    ensures forall i | 0 <= i < |fields| ::
              ExtractBits(Word(fields, 0), starts[i], fields[i].width)
              == fields[i].value % Pow2(fields[i].width)
  {
    forall i | 0 <= i < |fields|
      ensures ExtractBits(Word(fields, 0), starts[i], fields[i].width)
           == fields[i].value % Pow2(fields[i].width)
    {
      WidthToStart(fields, starts, i);
      FieldIsRead(fields, i);
    }
  }

  lemma {:induction false} WordIsBelow(fields: seq<Field>)
    ensures Word(fields, 0) < Pow2(Width(fields))
    decreases |fields|
  {
    if fields != [] {
      var f, rest := fields[0], fields[1..];
      WordIsBelow(rest);
      WordFrom(rest, f.width);
      Pow2Adds(f.width, Width(rest));
      SumIsBelow(f.value % Pow2(f.width), Pow2(f.width), Word(rest, 0), Pow2(Width(rest)));
    }
  }

  lemma SumIsBelow(low: nat, m: nat, high: nat, n: nat)
    requires low < m && high < n
    ensures low * 1 + m * high < m * n
  {
    MulMonotone(high + 1, n, m);
    assert m * (high + 1) == m * high + m;
  }

  // ---------------------------------------------------------------- Words of 64 bits

  /** A number's bytes, least significant byte first. */
  function WriteLe(word: nat, bytes: nat): (s: seq<Byte>)
    ensures |s| == bytes
  {
    if bytes == 0 then [] else [ToByte(word % 256)] + WriteLe(word / 256, bytes - 1)
  }

  function ReadLe(s: seq<Byte>): nat {
    if s == [] then 0 else Value(s[0]) + 256 * ReadLe(s[1..])
  }

  lemma {:induction false} LeRoundTrip(word: nat, bytes: nat)
    requires word < Pow2(8 * bytes)
    ensures ReadLe(WriteLe(word, bytes)) == word
  {
    if bytes > 0 {
      Pow2Adds(8, 8 * (bytes - 1));
      assert Pow2(8) == 256;
      LeRoundTrip(word / 256, bytes - 1);
      assert WriteLe(word, bytes)[1..] == WriteLe(word / 256, bytes - 1);
    }
  }

  // ---------------------------------------------------------------- The header

  const HEADER_SIZE: nat := 18
  const TIMESTAMP_HEADER_SIZE: nat := 16
  const WORD_SIZE: nat := 8
  const SYNC_V1: nat := 0xEEEE
  const SYNC_V2: nat := 0xEFEF
  const TYPE_TIMESTAMP := 0
  const TYPE_IPV4 := 1
  const TYPE_IPV6 := 2
  const PROTO_UDP := 1

  /** The fields of a header; flags are the five bits from the IPv4 checksum error on. */
  datatype Header = Header(isVersion2: bool, numWords: int, frameSize: int,
                           ipAddressOffset: int, portOffset: int, isUdp: int, packetType: int,
                           subStream: int, ipV4ChecksumError: bool, udpChecksumError: bool,
                           tcpChecksumError: bool, timestampRequest: bool, timestampValid: bool,
                           fingerprint: int, seconds: int, nanoseconds: int)

  /** The bytes before the frame. */
  function HeaderSize(packetType: int): nat {
    if packetType == TYPE_TIMESTAMP then TIMESTAMP_HEADER_SIZE else HEADER_SIZE
  }

  function Bit(b: bool): nat {
    if b then 1 else 0
  }

  /** The words of a packet with a frame of frameSize bytes, padded to a unit of words. */
  function NumWords(frameSize: nat, alignment: int): (n: nat) {
    var unit := if alignment > WORD_SIZE then alignment else WORD_SIZE;
    (HEADER_SIZE + frameSize + unit - 1) / unit * unit / WORD_SIZE
  }

  function Padding(h: Header): int {
    h.numWords * WORD_SIZE - HeaderSize(h.packetType) - h.frameSize
  }

  /** The first word; version 2 writes the padding where version 1 writes the frame's size. */
  function AllFields(h: Header): (f: seq<Field>)
    ensures |f| == 14
  {
    [Field(if h.isVersion2 then SYNC_V2 else SYNC_V1, 16),
     Field(h.numWords, if h.isVersion2 then 11 else 8),
     Field(if h.isVersion2 then Padding(h) else h.frameSize, if h.isVersion2 then 8 else 11),
     Field(h.ipAddressOffset / 4, 5), Field(h.portOffset / 4, 8), Field(h.isUdp, 1),
     Field(h.packetType, 2), Field(h.subStream, 2), Field(Bit(h.ipV4ChecksumError), 1),
     Field(Bit(h.udpChecksumError), 1), Field(Bit(h.tcpChecksumError), 1),
     Field(Bit(h.timestampRequest), 1), Field(Bit(h.timestampValid), 1),
     Field(h.fingerprint, 6)]
  }

  function TodFields(h: Header): seq<Field> {
    [Field(h.nanoseconds, 30), Field(0, 2), Field(h.seconds, 32)]
  }

  function Write(h: Header): (s: seq<Byte>)
    ensures |s| == HEADER_SIZE
  {
    WriteLe(Word(AllFields(h), 0), 8) + WriteLe(Word(TodFields(h), 0), 8)
    + [0, 0]
  }

  datatype Reading = Reading(isValid: bool, header: Header)

  function Read(s: seq<Byte>): (r: Reading)
    requires |s| >= HEADER_SIZE
    ensures r.header.portOffset >= 0 && r.header.seconds >= 0 && r.header.nanoseconds >= 0
    ensures r.header.numWords >= 0
    ensures r.isValid ==> 0 <= r.header.frameSize <= r.header.numWords * WORD_SIZE
  {
    var word, tod := ReadLe(s[..8]), ReadLe(s[8..16]);
    var sync := ExtractBits(word, 0, 16);
    var packetType := ExtractBits(word, 49, 2);
    var numWords := if sync == SYNC_V1 then ExtractBits(word, 16, 8)
                    else if sync == SYNC_V2 then ExtractBits(word, 16, 11) else 0;
    var frameSize := if sync == SYNC_V1 then ExtractBits(word, 24, 11)
                     else if sync == SYNC_V2
                     then numWords * WORD_SIZE - HeaderSize(packetType) - ExtractBits(word, 27, 8)
                     else 0;
    Reading((sync == SYNC_V1 || sync == SYNC_V2) && frameSize >= 0
              && HeaderSize(packetType) + frameSize <= numWords * WORD_SIZE,
            Header(sync == SYNC_V2, numWords, frameSize, ExtractBits(word, 35, 5) * 4,
                   ExtractBits(word, 40, 8) * 4, ExtractBits(word, 48, 1), packetType,
                   ExtractBits(word, 51, 2), ExtractBits(word, 53, 1) != 0,
                   ExtractBits(word, 54, 1) != 0, ExtractBits(word, 55, 1) != 0,
                   ExtractBits(word, 56, 1) != 0, ExtractBits(word, 57, 1) != 0,
                   ExtractBits(word, 58, 6), ExtractBits(tod, 32, 32), ExtractBits(tod, 0, 30)))
  }

  /** Every field fits its bits, and the frame its packet. */
  predicate Fits(h: Header) {
    && 0 <= h.frameSize && 0 <= Padding(h) && 0 <= h.numWords
    && (if h.isVersion2 then h.numWords < 2048 && Padding(h) < 256
        else h.numWords < 256 && h.frameSize < 2048)
    && 0 <= h.ipAddressOffset < 128 && h.ipAddressOffset % 4 == 0
    && 0 <= h.portOffset < 1024 && h.portOffset % 4 == 0
    && 0 <= h.isUdp < 2 && 0 <= h.packetType < 4 && 0 <= h.subStream < 4
    && 0 <= h.fingerprint < 64 && 0 <= h.seconds < 0x1_0000_0000
    && 0 <= h.nanoseconds < 0x4000_0000
  }

  // The weights of the widths of the fields.
  lemma Weights()
    ensures Pow2(1) == 2 && Pow2(2) == 4 && Pow2(5) == 32 && Pow2(6) == 64 && Pow2(8) == 256
    ensures Pow2(11) == 2048 && Pow2(16) == 0x10000
    ensures Pow2(30) == 0x4000_0000 && Pow2(32) == 0x1_0000_0000
    ensures Pow2(64) == 0x1_0000_0000_0000_0000
  {
    assert Pow2(8) == 256;
    Pow2Adds(5, 6);
    Pow2Adds(8, 8);
    Pow2Adds(16, 16);
    Pow2Adds(30, 2);
    Pow2Adds(32, 32);
  }

  function Starts(h: Header): (s: seq<nat>)
    ensures |s| == 14
  {
    [0, 16, if h.isVersion2 then 27 else 24, 35, 40, 48, 49, 51, 53, 54, 55, 56, 57, 58]
  }

  lemma StartsAreRight(h: Header)
    ensures AreStarts(AllFields(h), Starts(h))
  {
    FirstStartsAreRight(h);
    LastStartsAreRight(h);
    hide AllFields, Starts;
  }

  lemma FirstStartsAreRight(h: Header)
    ensures Starts(h)[0] == 0
    ensures forall i | 0 < i < 7 :: Starts(h)[i] == Starts(h)[i - 1] + AllFields(h)[i - 1].width
  {
    hide HeaderSize, Padding, Bit;
    var starts, fields := Starts(h), AllFields(h);
    assert starts[1] == fields[0].width && starts[2] == starts[1] + fields[1].width;
    assert starts[3] == starts[2] + fields[2].width && starts[4] == starts[3] + fields[3].width;
    assert starts[5] == starts[4] + fields[4].width && starts[6] == starts[5] + fields[5].width;
    hide AllFields, Starts;
  }

  lemma LastStartsAreRight(h: Header)
    ensures forall i | 7 <= i < 14 :: Starts(h)[i] == Starts(h)[i - 1] + AllFields(h)[i - 1].width
  {
    hide HeaderSize, Padding, Bit;
    var starts, fields := Starts(h), AllFields(h);
    assert starts[7] == starts[6] + fields[6].width && starts[8] == starts[7] + fields[7].width;
    assert starts[9] == starts[8] + fields[8].width && starts[10] == starts[9] + fields[9].width;
    assert starts[11] == starts[10] + fields[10].width && starts[12] == starts[11] + fields[11].width;
    assert starts[13] == starts[12] + fields[12].width;
    hide AllFields, Starts;
  }

  // A field of the first word is read back.
  lemma FieldOfHeader(h: Header, i: nat, start: nat, value: nat, width: nat)
    requires i < 14 && Starts(h)[i] == start && AllFields(h)[i] == Field(value, width)
    requires value < Pow2(width)
    ensures ExtractBits(Word(AllFields(h), 0), start, width) == value
  {
    hide ExtractBits, Word, Pow2, AllFields, Starts;
    StartsAreRight(h);
    WidthToStart(AllFields(h), Starts(h), i);
    FieldIsRead(AllFields(h), i);
  }

  lemma SizeIsRead(h: Header)
    requires Fits(h)
    ensures var word := Word(AllFields(h), 0);
      && ExtractBits(word, 0, 16) == (if h.isVersion2 then SYNC_V2 else SYNC_V1)
      && (if h.isVersion2
          then ExtractBits(word, 16, 11) == h.numWords && ExtractBits(word, 27, 8) == Padding(h)
          else ExtractBits(word, 16, 8) == h.numWords && ExtractBits(word, 24, 11) == h.frameSize)
  {
    hide ExtractBits, Word, Pow2, HeaderSize;
    Weights();
    if h.isVersion2 {
      FieldOfHeader(h, 0, 0, SYNC_V2, 16);
      FieldOfHeader(h, 1, 16, h.numWords, 11);
      FieldOfHeader(h, 2, 27, Padding(h), 8);
    } else {
      FieldOfHeader(h, 0, 0, SYNC_V1, 16);
      FieldOfHeader(h, 1, 16, h.numWords, 8);
      FieldOfHeader(h, 2, 24, h.frameSize, 11);
    }
  }

  lemma FirstWordIsBelow(h: Header)
    ensures Word(AllFields(h), 0) < Pow2(64)
  {
    hide Word, Pow2;
    StartsAreRight(h);
    LastField(h);
    hide AllFields, Starts;
    var fields, starts := AllFields(h), Starts(h);
    WordIsBelow(fields);
    WidthToStart(fields, starts, 13);
    WidthAppend(fields[..13], fields[13]);
    assert fields == fields[..13] + [fields[13]];
  }

  lemma LastField(h: Header)
    ensures |AllFields(h)| == 14 && AllFields(h)[13].width == 6
    ensures |Starts(h)| == 14 && Starts(h)[13] == 58
  {
  }

  lemma ProtocolIsRead(h: Header)
    requires Fits(h)
    ensures var word := Word(AllFields(h), 0);
      && ExtractBits(word, 35, 5) == h.ipAddressOffset / 4
      && ExtractBits(word, 40, 8) == h.portOffset / 4
      && ExtractBits(word, 48, 1) == h.isUdp && ExtractBits(word, 49, 2) == h.packetType
      && ExtractBits(word, 51, 2) == h.subStream
      && ExtractBits(word, 58, 6) == h.fingerprint
  {
    hide ExtractBits, Word, Pow2;
    Weights();
    FieldOfHeader(h, 3, 35, h.ipAddressOffset / 4, 5);
    FieldOfHeader(h, 4, 40, h.portOffset / 4, 8);
    FieldOfHeader(h, 5, 48, h.isUdp, 1);
    FieldOfHeader(h, 6, 49, h.packetType, 2);
    FieldOfHeader(h, 7, 51, h.subStream, 2);
    FieldOfHeader(h, 13, 58, h.fingerprint, 6);
  }

  lemma FlagsAreRead(h: Header)
    ensures var word := Word(AllFields(h), 0);
      && ExtractBits(word, 53, 1) == Bit(h.ipV4ChecksumError)
      && ExtractBits(word, 54, 1) == Bit(h.udpChecksumError)
      && ExtractBits(word, 55, 1) == Bit(h.tcpChecksumError)
      && ExtractBits(word, 56, 1) == Bit(h.timestampRequest)
      && ExtractBits(word, 57, 1) == Bit(h.timestampValid)
  {
    hide ExtractBits, Word, Pow2;
    Weights();
    FieldOfHeader(h, 8, 53, Bit(h.ipV4ChecksumError), 1);
    FieldOfHeader(h, 9, 54, Bit(h.udpChecksumError), 1);
    FieldOfHeader(h, 10, 55, Bit(h.tcpChecksumError), 1);
    FieldOfHeader(h, 11, 56, Bit(h.timestampRequest), 1);
    FieldOfHeader(h, 12, 57, Bit(h.timestampValid), 1);
  }

  lemma TodIsRead(h: Header)
    requires Fits(h)
    ensures var tod := Word(TodFields(h), 0);
      && tod < Pow2(64)
      && ExtractBits(tod, 0, 30) == h.nanoseconds && ExtractBits(tod, 32, 32) == h.seconds
  {
    hide ExtractBits, Word, Pow2;
    Weights();
    var fields: seq<Field>, starts: seq<nat> := TodFields(h), [0, 30, 32];
    FieldsAreRead(fields, starts);
    WordIsBelow(fields);
    WidthToStart(fields, starts, 2);
    WidthAppend(fields[..2], fields[2]);
    assert fields == fields[..2] + [fields[2]];
  }

  /** Reading a header gives back the fields written, of either version. */
  lemma HeaderRoundTrip(h: Header, rest: seq<Byte>)
    requires Fits(h)
    ensures Read(Write(h) + rest) == Reading(true, h)
  {
    hide ExtractBits, Word, Pow2, WriteLe, ReadLe, AllFields, TodFields;
    SizeIsRead(h);
    ProtocolIsRead(h);
    FlagsAreRead(h);
    TodIsRead(h);
    WrittenWords(h, rest);
  }

  lemma WrittenWords(h: Header, rest: seq<Byte>)
    requires Fits(h)
    ensures ReadLe((Write(h) + rest)[..8]) == Word(AllFields(h), 0)
    ensures ReadLe((Write(h) + rest)[8..16]) == Word(TodFields(h), 0)
  {
    hide ExtractBits, Word, Pow2, WriteLe, ReadLe, TodFields, Fits;
    FirstWordIsBelow(h);
    TodIsRead(h);
    LeRoundTrip(Word(AllFields(h), 0), 8);
    LeRoundTrip(Word(TodFields(h), 0), 8);
    assert (Write(h) + rest)[..8] == WriteLe(Word(AllFields(h), 0), 8);
    assert (Write(h) + rest)[8..16] == WriteLe(Word(TodFields(h), 0), 8);
  }
}
