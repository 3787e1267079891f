// Examples/Common/ExampleTsStream.c: the stream, packet by packet.

module TsStream {
  import opened Arithmetic
  import opened Bytes
  import opened TsPackets
  import opened TsVideo
  import opened TsPicture

  // ---------------------------------------------------------------- Tables

  /** A section of a table: its length set, and its CRC behind it. */
  function Section(body: seq<Byte>): (s: seq<Byte>)
    requires 3 <= |body| <= 179
    ensures |s| == |body| + 4
  {
    var length := |body| - 3 + 4;
    var b := body[1 := ToByte(0xB0 + length / 256)][2 := ToByte(length % 256)];
    b + CrcBytes(Crc32(b))
  }

  /** A section is one that a receiver accepts. */
  lemma SectionIsValid(body: seq<Byte>)
    requires 3 <= |body| <= 179
    ensures Crc32(Section(body)) == 0
    ensures Value(Section(body)[1]) % 16 * 256 + Value(Section(body)[2]) == |Section(body)| - 3
  {
    hide Crc32, CrcBytes;
    var length := |body| - 3 + 4;
    SectionChecks(body[1 := ToByte(0xB0 + length / 256)][2 := ToByte(length % 256)]);
  }

  /** A packet with one section. */
  function TablePacket(pid: nat, cc: nat, body: seq<Byte>): (p: seq<Byte>)
    requires pid < 0x2000 && 3 <= |body| <= 179
    ensures |p| == TS_SIZE
  {
    HeaderBytes(pid, true, 1, cc) + ([0] + Section(body)) + Fill(0xFF, 183 - |Section(body)|)
  }

  function NullPacket(): (p: seq<Byte>)
    ensures |p| == TS_SIZE
  {
    HeaderBytes(PID_NULL, false, 1, 0) + Fill(0xFF, 184)
  }

  // A packet without an adaptation field is parsed to what follows its header.
  lemma PlainIsParsed(pid: nat, start: bool, cc: nat, payload: seq<Byte>)
    requires pid < 0x2000 && |payload| == 184
    ensures Parse(HeaderBytes(pid, start, 1, cc) + payload) == Parsed(pid, start, cc % 16, payload)
  {
    HeaderIsParsed(pid, start, 1, cc);
    var header := HeaderBytes(pid, start, 1, cc);
    hide HeaderBytes;
    assert header + [] + payload == header + payload;
    PacketParts(header, [], payload);
  }

  /** The program association table: program 1 is in PID_PMT. */
  const PAT: seq<Byte> := [0x00, 0, 0, 0x00, 0x01, 0xC1, 0, 0, 0x00, 0x01, 0xF0, 0x00]

  /** The program map table: one elementary stream, whose PID is also the clock's. */
  const PMT: seq<Byte> := [0x02, 0, 0, 0x00, 0x01, 0xC1, 0, 0, 0xE1, 0x00, 0xF0, 0x00,
                           0x02, 0xE1, 0x00, 0xF0, 0x00]

  const PROVIDER: string := "DekTec"
  const NAME: string := "CDTAPI ASI test"

  function Letters(s: string): (b: seq<Byte>)
    requires forall i | 0 <= i < |s| :: s[i] < 128 as char
    ensures |b| == |s|
  {
    seq(|s|, i requires 0 <= i < |s| => ToByte(s[i] as int))
  }

  const PROVIDER_LETTERS: seq<Byte> := Letters(PROVIDER)
  const NAME_LETTERS: seq<Byte> := Letters(NAME)

  /** The service description table: the name of the service, and who provides it. */
  function Sdt(): (b: seq<Byte>)
    ensures 3 <= |b| <= 179
  {
    var name := [0x01, ToByte(|PROVIDER|)] + PROVIDER_LETTERS + [ToByte(|NAME|)] + NAME_LETTERS;
    [0x42, 0, 0, 0x00, 0x01, 0xC1, 0, 0, 0x00, 0x01, 0xFF, 0x00, 0x01, 0xFC, 0x80,
     ToByte(2 + |name|), 0x48, ToByte(|name|)] + name
  }

  function Pid(s: seq<Byte>, at: nat): nat
    requires at + 2 <= |s|
  {
    Value(s[at]) % 32 * 256 + Value(s[at + 1])
  }

  /** A number of two bytes in a section. */
  function Id(s: seq<Byte>, at: nat): nat
    requires at + 2 <= |s|
  {
    Value(s[at]) * 256 + Value(s[at + 1])
  }

  /** What a service description says: ETSI EN 300 468, sections 5.2.3 and 6.2.33. */
  datatype Service = NoService | Service(id: nat, kind: nat, provider: seq<Byte>, name: seq<Byte>)

  /** The first service of a section, whose first descriptor is one of a service. */
  function ReadService(s: seq<Byte>): Service {
    if |s| < 24 || s[0] != 0x42 || Value(s[14]) % 16 * 256 + Value(s[15]) != |s| - 20
       || s[16] != 0x48
    then NoService
    else
      var end, provider := 18 + Value(s[17]), 20 + Value(s[19]);
      if end > |s| - 4 || provider >= end then NoService
      else
        var name := provider + 1 + Value(s[provider]);
        if name > end then NoService
        else Service(Id(s, 11), Value(s[18]), s[20..provider], s[provider + 1..name])
  }

  /** The service is the program's, digital television, and has the names of the two strings. */
  lemma ServiceIsRead()
    ensures ReadService(Section(Sdt())) == Service(1, 1, PROVIDER_LETTERS, NAME_LETTERS)
  {
    SectionHasBody(Sdt());
    SdtParts();
    TableStarts(Sdt());
    hide Section, Letters, Value, Id;
    var s, b := Section(Sdt()), Sdt();
    hide Sdt;
    NumbersOf(s);
    assert s[20..26] == b[20..26] && s[27..42] == b[27..42];
  }

  lemma NumbersOf(s: seq<Byte>)
    requires |s| >= 27 && s[11] == 0 && s[12] == 1 && s[14] == 0x80 && s[15] == ToByte(26)
    requires s[17] == ToByte(24) && s[18] == 1 && s[19] == ToByte(6) && s[26] == ToByte(15)
    ensures Id(s, 11) == 1 && Value(s[14]) % 16 * 256 + Value(s[15]) == 26
    ensures Value(s[17]) == 24 && Value(s[18]) == 1 && Value(s[19]) == 6 && Value(s[26]) == 15
  {
  }

  // The bytes of the service description table.
  lemma SdtParts()
    ensures var b := Sdt();
      && |b| == 42 && b[0] == 0x42 && b[3] == 0 && b[4] == 1 && b[14] == 0x80 && b[15] == ToByte(26)
      && b[11] == 0 && b[12] == 1 && b[16] == 0x48 && b[17] == ToByte(24) && b[18] == 1
      && b[19] == ToByte(6) && b[20..26] == PROVIDER_LETTERS && b[26] == ToByte(15)
      && b[27..42] == NAME_LETTERS
  {
    hide Letters;
  }

  /** The tables are of one stream and one program, the one that the service is. */
  lemma TablesAreOfOneProgram()
    ensures Id(Section(PAT), 3) == 1 && Id(Section(PAT), 8) == 1 && Id(Section(PMT), 3) == 1
    ensures Id(Section(Sdt()), 3) == 1
  {
    hide Section, Id, Crc32, CrcBytes, Sdt;
    SectionHasBody(PAT);
    SectionHasBody(PMT);
    OneIsRead(Section(PAT), 3);
    OneIsRead(Section(PAT), 8);
    OneIsRead(Section(PMT), 3);
    SdtIsOfStream();
  }

  lemma SdtIsOfStream()
    ensures Id(Section(Sdt()), 3) == 1
  {
    SectionHasBody(Sdt());
    SdtParts();
    hide Section, Id, Crc32, CrcBytes, Sdt;
    OneIsRead(Section(Sdt()), 3);
  }

  /** No descriptors follow for the program or its stream, and the section ends there. */
  lemma ProgramHasNoDescriptors()
    ensures Id(Section(PMT), 10) % 0x1000 == 0 && Id(Section(PMT), 15) % 0x1000 == 0
    ensures |Section(PMT)| == 17 + 4
  {
    hide Section, Id, Crc32, CrcBytes;
    SectionHasBody(PMT);
    ReservedIsRead(Section(PMT), 10);
    ReservedIsRead(Section(PMT), 15);
  }

  lemma ReservedIsRead(s: seq<Byte>, at: nat)
    requires at + 2 <= |s| && s[at] == 0xF0 && s[at + 1] == 0
    ensures Id(s, at) % 0x1000 == 0
  {
  }

  lemma OneIsRead(s: seq<Byte>, at: nat)
    requires at + 2 <= |s| && s[at] == 0 && s[at + 1] == 1
    ensures Id(s, at) == 1
  {
  }

  lemma TableStarts(body: seq<Byte>)
    requires 3 <= |body| <= 179
    ensures Section(body)[0] == body[0]
  {
    hide Crc32, CrcBytes;
  }

  /** The tables lead from one another to the video. */
  lemma TablesLeadToVideo()
    ensures |Section(PAT)| == 16 && Pid(Section(PAT), 10) == PID_PMT
    ensures |Section(PMT)| == 21 && Section(PMT)[12] == 2 && Pid(Section(PMT), 13) == PID_VIDEO
    ensures Pid(Section(PMT), 8) == PID_VIDEO
  {
    hide Section, Pid, Crc32, CrcBytes;
    SectionHasBody(PAT);
    SectionHasBody(PMT);
    PidIs(Section(PAT), 10, PID_PMT);
    PidIs(Section(PMT), 8, PID_VIDEO);
    PidIs(Section(PMT), 13, PID_VIDEO);
  }

  lemma PidIs(s: seq<Byte>, at: nat, pid: nat)
    requires at + 2 <= |s| && pid < 0x2000
    requires s[at] == ToByte(0xE0 + pid / 256) && s[at + 1] == ToByte(pid % 256)
    ensures Pid(s, at) == pid
  {
  }

  lemma SectionHasBody(body: seq<Byte>)
    requires 3 <= |body| <= 179
    ensures forall i | 3 <= i < |body| :: Section(body)[i] == body[i]
  {
    hide Crc32, CrcBytes;
  }

  /** The bit rates that a stream may have. */
  type Rate = r: nat | 3_000_000 <= r <= 210_000_000 witness 3_000_000

  /** The clock of 27 MHz at the last byte of a packet's clock reference. */
  function Clock(packet: nat, rate: Rate): nat {
    var bits := (packet * TS_SIZE + 11) * 8;
    Quotient(bits, rate) * 27000000 + Quotient(bits % rate * 27000000, rate)
  }

  function Quotient(x: nat, rate: Rate): nat {
    DivMonotone(0, x, rate);
    x / rate
  }

  /** Taken apart into seconds and the rest, the clock is still that of all the bits sent. */
  lemma ClockIsExact(packet: nat, rate: Rate)
    ensures Clock(packet, rate) == (packet * TS_SIZE + 11) * 8 * 27000000 / rate
  {
    Seconds((packet * TS_SIZE + 11) * 8, rate);
  }

  lemma Seconds(bits: nat, rate: Rate)
    ensures bits / rate * 27000000 + bits % rate * 27000000 / rate == bits * 27000000 / rate
  {
    var seconds, rest := bits / rate, bits % rate;
    var ticks := rest * 27000000 / rate;
    DivBounds(rest * 27000000, rate);
    SecondsAndTicks(bits, rate, seconds, rest, ticks);
    DivUnique(bits * 27000000, rate, seconds * 27000000 + ticks);
  }

  lemma SecondsAndTicks(bits: nat, rate: Rate, seconds: nat, rest: nat, ticks: nat)
    requires bits == seconds * rate + rest && ticks * rate <= rest * 27000000 < ticks * rate + rate
    ensures (seconds * 27000000 + ticks) * rate <= bits * 27000000
    ensures bits * 27000000 < (seconds * 27000000 + ticks) * rate + rate
  {
    assert (seconds * 27000000 + ticks) * rate == seconds * rate * 27000000 + ticks * rate;
  }

  /** The clock in the form that a clock reference has: 33 bits of 90 kHz, and the rest. */
  function ClockReference(packet: nat, rate: Rate): (s: seq<Byte>)
    ensures |s| == 6
  {
    ClockBytes(Clock(packet, rate) / 300 % 0x2_0000_0000, Clock(packet, rate) % 300)
  }

  function ClockBytes(base: nat, ext: nat): (s: seq<Byte>)
    requires base < 0x2_0000_0000 && ext < 300
    ensures |s| == 6
  {
    [ToByte(base / 0x200_0000), ToByte(base / 0x2_0000 % 256), ToByte(base / 0x200 % 256),
     ToByte(base / 2 % 256), ToByte(base % 2 * 128 + 0x7E + ext / 256), ToByte(ext % 256)]
  }

  /** ISO/IEC 13818-1, section 2.4.3.5: the base and the extension of a clock reference. */
  function ClockIn(s: seq<Byte>): (nat, nat)
    requires |s| == 6
  {
    (Value(s[0]) * 0x200_0000 + Value(s[1]) * 0x2_0000 + Value(s[2]) * 0x200 + Value(s[3]) * 2
     + Value(s[4]) / 128,
     Value(s[4]) % 2 * 256 + Value(s[5]))
  }

  lemma ClockRoundTrip(base: nat, ext: nat)
    requires base < 0x2_0000_0000 && ext < 300
    ensures ClockIn(ClockBytes(base, ext)) == (base, ext)
  {
    BaseJoins(base);
    ExtensionJoins(base % 2, ext);
    BytesAreRead(base / 0x200_0000, base / 0x2_0000 % 256, base / 0x200 % 256, base / 2 % 256,
                 base % 2 * 128 + 0x7E + ext / 256, ext % 256);
    hide ClockIn, ToByte;
  }

  lemma BytesAreRead(a: nat, b: nat, c: nat, d: nat, e: nat, f: nat)
    requires a < 256 && b < 256 && c < 256 && d < 256 && e < 256 && f < 256
    ensures ClockIn([ToByte(a), ToByte(b), ToByte(c), ToByte(d), ToByte(e), ToByte(f)])
         == (a * 0x200_0000 + b * 0x2_0000 + c * 0x200 + d * 2 + e / 128, e % 2 * 256 + f)
  {
    ValuesAre(a, b, c);
    ValuesAre(d, e, f);
    hide ToByte, Value;
  }

  lemma ValuesAre(a: nat, b: nat, c: nat)
    requires a < 256 && b < 256 && c < 256
    ensures Value(ToByte(a)) == a && Value(ToByte(b)) == b && Value(ToByte(c)) == c
  {
  }

  lemma BaseJoins(base: nat)
    ensures base / 0x200_0000 * 0x200_0000 + base / 0x2_0000 % 256 * 0x2_0000
            + base / 0x200 % 256 * 0x200 + base / 2 % 256 * 2 + base % 2 == base
  {
    DivDiv(base, 2, 256);
    DivDiv(base, 0x200, 256);
    DivDiv(base, 0x2_0000, 256);
    var a, b, c := base / 2, base / 0x200, base / 0x2_0000;
    assert base == a * 2 + base % 2 && a == b * 256 + a % 256 && b == c * 256 + b % 256;
    assert c == base / 0x200_0000 * 256 + c % 256;
  }

  lemma ExtensionJoins(low: nat, ext: nat)
    requires low < 2 && ext < 300
    ensures (low * 128 + 0x7E + ext / 256) / 128 == low
    ensures (low * 128 + 0x7E + ext / 256) % 2 * 256 + ext % 256 == ext
  {
  }

  /** A receiver reads the exact time of the reference, modulo the clock's wrap. */
  lemma ClockIsRead(packet: nat, rate: Rate)
    ensures var (base, ext) := ClockIn(ClockReference(packet, rate));
      base * 300 + ext
      == (packet * TS_SIZE + 11) * 8 * 27000000 / rate % (0x2_0000_0000 * 300)
  {
    ClockIsExact(packet, rate);
    var clock := Clock(packet, rate);
    ClockRoundTrip(clock / 300 % 0x2_0000_0000, clock % 300);
    hide ClockIn, ClockBytes, Clock;
    ClockWraps(clock);
  }

  datatype ClockRead = NoClock | Ticks(count: nat)

  /**
   * ISO/IEC 13818-1, section 2.4.3.4: the clock reference of a packet is behind the flags of its
   * adaptation field, if the field is there and has the flag for it.
   */
  function ReadClock(p: seq<Byte>): (c: ClockRead) {
    if |p| != TS_SIZE || p[0] != 0x47 || Value(p[3]) / 16 % 4 < 2 then NoClock
    else if Value(p[4]) < 7 || Value(p[5]) / 16 % 2 == 0 then NoClock
    else
      var (base, ext) := ClockIn(p[6..12]);
      Ticks(base * 300 + ext)
  }

  /** A packet of video has its clock reference where a receiver looks for it, or none. */
  lemma ClockIsFound(cc: nat, pcr: seq<Byte>, payload: seq<Byte>)
    requires 0 < |payload| && (if pcr == [] then |payload| <= 184
                               else |pcr| == 6 && |payload| <= 176)
    ensures ReadClock(VideoPacket(cc, pcr, payload))
         == if pcr == [] then NoClock else Ticks(ClockIn(pcr).0 * 300 + ClockIn(pcr).1)
  {
    var size := 184 - |payload|;
    var control := if size > 0 then 3 else 1;
    var header, field := HeaderBytes(PID_VIDEO, pcr != [], control, cc), AdaptationBytes(size, pcr);
    HeaderIsParsed(PID_VIDEO, pcr != [], control, cc);
    FieldIs(size, pcr);
    hide HeaderBytes, AdaptationBytes, ClockIn;
    FieldInPacket(header, field, payload);
  }

  /** Apart from that flag the field has none, and behind the clock reference is stuffing. */
  lemma RestIsStuffing(cc: nat, pcr: seq<Byte>, payload: seq<Byte>)
    requires 0 < |payload| < 183 && (pcr == [] || (|pcr| == 6 && |payload| <= 176))
    ensures var p, from := VideoPacket(cc, pcr, payload), 6 + |pcr|;
      && p[5] == (if pcr == [] then 0 else 0x10)
      && forall j | from <= j < TS_SIZE - |payload| :: p[j] == 0xFF
  {
    var size := 184 - |payload|;
    var header, field := HeaderBytes(PID_VIDEO, pcr != [], 3, cc), AdaptationBytes(size, pcr);
    var p := VideoPacket(cc, pcr, payload);
    hide HeaderBytes;
    assert p == header + field + payload;
    assert p[5] == field[1];
    forall j | 6 + |pcr| <= j < TS_SIZE - |payload|
      ensures p[j] == 0xFF
    {
      assert p[j] == field[j - 4];
    }
  }

  // The length, the flags and the clock reference of an adaptation field.
  lemma FieldIs(size: nat, pcr: seq<Byte>)
    requires size <= 184 && (pcr == [] || (|pcr| == 6 && size >= 8))
    ensures var field := AdaptationBytes(size, pcr);
      && (size > 0 ==> Value(field[0]) == size - 1)
      && (size > 1 ==> (Value(field[1]) / 16 % 2 == 1 <==> pcr != []))
      && (pcr != [] ==> field[2..8] == pcr)
  {
    AdaptationIsFound(size, pcr);
  }

  lemma FieldInPacket(header: seq<Byte>, field: seq<Byte>, payload: seq<Byte>)
    requires |header| == 4
    ensures var p := header + field + payload;
      && p[0] == header[0] && p[3] == header[3]
      && (|field| > 0 ==> p[4] == field[0]) && (|field| > 1 ==> p[5] == field[1])
      && (|field| >= 8 ==> p[6..12] == field[2..8])
  {
    var p := header + field + payload;
    if |field| >= 8 {
      assert p[4..4 + |field|] == field;
      assert p[6..12] == p[4..4 + |field|][2..8];
    }
  }

  lemma ClockWraps(clock: nat)
    ensures clock / 300 % 0x2_0000_0000 * 300 + clock % 300 == clock % (0x2_0000_0000 * 300)
  {
    DivDiv(clock, 300, 0x2_0000_0000);
    var ticks := clock / 300;
    assert clock == ticks * 300 + clock % 300;
    assert ticks == clock / (0x2_0000_0000 * 300) * 0x2_0000_0000 + ticks % 0x2_0000_0000;
  }

  // ---------------------------------------------------------------- Demultiplexing

  /** The units that the packets of video carry: each starts at a packet marked so. */
  function Units(log: seq<seq<Byte>>): seq<seq<Byte>> {
    if log == [] then []
    else WithPacket(Units(log[..|log| - 1]), Parse(log[|log| - 1]))
  }

  function WithPacket(units: seq<seq<Byte>>, p: Parsed): seq<seq<Byte>> {
    if p == NoPacket || p.pid != PID_VIDEO then units
    else if p.start then units + [p.payload]
    else if units == [] then units
    else units[..|units| - 1] + [units[|units| - 1] + p.payload]
  }

  lemma UnitGrows(done: seq<seq<Byte>>, es: seq<Byte>, sent: nat, n: nat, p: Parsed)
    requires p.Parsed? && p.pid == PID_VIDEO && 0 < n && sent + n <= |es|
    requires p.start == (sent == 0) && p.payload == es[sent..sent + n]
    ensures WithPacket(done + (if sent > 0 then [es[..sent]] else []), p) == done + [es[..sent + n]]
  {
    assert es[..sent] + es[sent..sent + n] == es[..sent + n];
    if sent == 0 {
      assert done + [] == done && es[0..n] == es[..n];
    }
  }

  function Count(log: seq<seq<Byte>>, pid: nat): nat {
    if log == [] then 0
    else
      var p := Parse(log[|log| - 1]);
      Count(log[..|log| - 1], pid) + if p.Parsed? && p.pid == pid then 1 else 0
  }

  /** A byte that counts packets. */
  function Counter(n: nat): nat {
    n % 256
  }

  lemma CounterGoesOn(n: nat)
    ensures (Counter(n) + 1) % 256 == Counter(n + 1) && Counter(n) % 16 == n % 16
  {
  }

  /** Each packet but a null one has the counter that comes next for its PID. */
  ghost predicate IsContinuous(log: seq<seq<Byte>>) {
    forall i | 0 <= i < |log| ::
      var p := Parse(log[i]);
      p.Parsed? && (p.pid != PID_NULL ==> p.cc == Count(log[..i], p.pid) % 16)
  }

  lemma OneMorePacket(log: seq<seq<Byte>>, packet: seq<Byte>)
    requires IsContinuous(log) && Parse(packet).Parsed?
    requires Parse(packet).pid != PID_NULL ==>
               Parse(packet).cc == Count(log, Parse(packet).pid) % 16
    ensures IsContinuous(log + [packet])
    ensures Units(log + [packet]) == WithPacket(Units(log), Parse(packet))
    ensures forall pid :: Count(log + [packet], pid)
                          == Count(log, pid) + if Parse(packet).pid == pid then 1 else 0
  {
    hide Parse, WithPacket;
    var more := log + [packet];
    assert more[..|more| - 1] == log;
    forall i | 0 <= i < |more|
      ensures var p := Parse(more[i]);
        p.Parsed? && (p.pid != PID_NULL ==> p.cc == Count(more[..i], p.pid) % 16)
    {
      if i < |log| {
        assert more[..i] == log[..i] && more[i] == log[i];
      }
    }
  }

  // ---------------------------------------------------------------- The stream

  /** The packet that a frame starts with at the latest, at this bit rate. */
  function FirstPacket(rate: Rate, frame: nat): nat {
    frame * rate / (25 * TS_SIZE * 8)
  }

  /** A frame starts, of 25 a second, with the packet that is being sent at its time. */
  lemma FirstPacketIs(rate: Rate, frame: nat)
    ensures var bits := FirstPacket(rate, frame) * TS_SIZE * 8;
      bits * 25 <= frame * rate < (bits + TS_SIZE * 8) * 25
  {
    DivBounds(frame * rate, 25 * TS_SIZE * 8);
  }

  /** How many packets what is left of a PES packet takes. */
  function VideoPackets(sent: nat, size: nat): (n: nat)
    requires sent <= size
    ensures n == 0 <==> sent == size
  {
    if sent == size then 0
    else if sent == 0 then 1 + if size <= 176 then 0 else (size - 176 + 183) / 184
    else (size - sent + 183) / 184
  }

  /** The lowest rate at which the packets of any picture fit the period of a frame. */
  const ON_TIME_RATE: nat := 135 * 25 * TS_SIZE * 8

  lemma FirstAtOnce(rate: Rate)
    ensures FirstPacket(rate, 0) == 0
  {
  }

  lemma PeriodHasRoom(rate: Rate, frame: nat, size: nat)
    requires rate >= ON_TIME_RATE && size <= ES_CAPACITY
    ensures FirstPacket(rate, frame) + 3 + VideoPackets(0, size) <= FirstPacket(rate, frame + 1)
  {
    var d := 25 * TS_SIZE * 8;
    DivMonotone(frame * rate + 135 * d, (frame + 1) * rate, d);
    assert (frame * rate + 135 * d) / d == frame * rate / d + 135;
  }

  /** The PES packets of the frames before, and of the one being sent, are those of the pictures. */
  ghost predicate AreFrames(done: seq<seq<Byte>>, es: seq<Byte>,
                            pictures: seq<seq<seq<Colour>>>) {
    if pictures == [] then done == [] && es == []
    else
      && |done| == |pictures| - 1
      && es != [] && ShowsFrame(es, |pictures| - 1, pictures[|pictures| - 1])
      && forall k | 0 <= k < |done| :: ShowsFrame(done[k], k, pictures[k])
  }

  lemma OneMoreFrame(done: seq<seq<Byte>>, es: seq<Byte>, pictures: seq<seq<seq<Colour>>>,
                     next: seq<Byte>, rows: seq<seq<Colour>>)
    requires AreFrames(done, es, pictures) && next != [] && ShowsFrame(next, |pictures|, rows)
    ensures AreFrames(done + if es != [] then [es] else [], next, pictures + [rows])
  {
    hide ShowsFrame;
  }

  /** Of the units, as many as are complete show their pictures. */
  ghost predicate FramesShow(units: seq<seq<Byte>>, pictures: seq<seq<seq<Colour>>>, shown: int) {
    shown <= |units| && shown <= |pictures|
    && forall k | 0 <= k < shown :: ShowsFrame(units[k], k, pictures[k])
  }

  lemma UnitsShowFrames(done: seq<seq<Byte>>, es: seq<Byte>, esSent: nat,
                        pictures: seq<seq<seq<Colour>>>)
    requires AreFrames(done, es, pictures) && esSent <= |es|
    ensures var units := done + if esSent > 0 then [es[..esSent]] else [];
      FramesShow(units, pictures, if esSent == |es| then |pictures| else |pictures| - 1)
  {
    hide ShowsFrame;
    assert es[..|es|] == es;
  }

  /**
   * The stream: es is the PES packet of the frame being sent. The ghosts are all packets so
   * far, the PES packets of the frames before, and all frames' pictures.
   */
  class Stream {
    const rate: Rate
    var packet: nat
    var frame: int
    var frameEnd: nat
    var es: seq<Byte>
    var esSent: nat
    var psiSent: nat
    var ccPat: nat
    var ccPmt: nat
    var ccSdt: nat
    var ccVideo: nat

    ghost var log: seq<seq<Byte>>
    ghost var done: seq<seq<Byte>>
    ghost var pictures: seq<seq<seq<Colour>>>

    /** What the packets of video carry is each frame's PES packet, and as much of the last as
        has been sent. */
    ghost predicate Valid()
      reads this
    {
      && esSent <= |es| && psiSent <= 3
      && AreCounted() && IsContinuous(log)
      && frame == |pictures| - 1 && AreFrames(done, es, pictures)
      && Units(log) == done + (if esSent > 0 then [es[..esSent]] else [])
    }

    /** The counters are those of the next packets. */
    ghost predicate AreCounted()
      reads this
    {
      && ccPat == Counter(Count(log, PID_PAT)) && ccPmt == Counter(Count(log, PID_PMT))
      && ccSdt == Counter(Count(log, PID_SDT)) && ccVideo == Counter(Count(log, PID_VIDEO))
    }

    /** The packets of the frame that are still to be sent. */
    ghost function Left(): nat
      requires esSent <= |es| && psiSent <= 3
      reads this
    {
      3 - psiSent + VideoPackets(esSent, |es|)
    }

    /** What is left goes out before the next frame is due. */
    ghost predicate IsOnTime()
      requires esSent <= |es| && psiSent <= 3
      reads this
    {
      if frame == -1 then packet == 0 == frameEnd && es == []
      else 0 <= frame && frameEnd == FirstPacket(rate, frame + 1) && packet + Left() <= frameEnd
    }

    constructor (rate: Rate)
      ensures Valid() && log == [] && pictures == [] && IsOnTime()
    {
      this.rate := rate;
      packet, frame, frameEnd, es, esSent, psiSent := 0, -1, 0, [], 0, 0;
      ccPat, ccPmt, ccSdt, ccVideo := 0, 0, 0, 0;
      log, done, pictures := [], [], [];
    }

    /**
     * The next packet: the tables, then the frame, then null packets until its period ends.
     * A demultiplexer and decoder get from the packets every frame's picture but the last's, and
     * that too once it has all been sent. Packets are null just when nothing is left to send;
     * at a sufficient rate each frame starts at the very packet of its time.
     */
    method Next(rows: seq<seq<Colour>>) returns (p: seq<Byte>)
      requires Valid() && IsFramePicture(rows)
      modifies this
      ensures Valid() && log == old(log) + [p] && |p| == TS_SIZE && packet == old(packet) + 1
      ensures pictures == old(pictures) + if old(packet) >= old(frameEnd) && old(esSent) == |old(es)|
                                          then [rows] else []
      ensures FramesShow(Units(log), pictures,
                         if esSent == |es| then |pictures| else |pictures| - 1)
      ensures Parse(p).Parsed?
      ensures Parse(p).pid == PID_NULL <==> old(packet) < old(frameEnd) && old(Left()) == 0
      ensures rate >= ON_TIME_RATE && old(IsOnTime()) ==>
        && IsOnTime()
        && (pictures != old(pictures) <==> old(packet) == FirstPacket(rate, |old(pictures)|))
    {
      hide IsContinuous, Units, Count, AreFrames, FramesShow, IsFramePicture, Parse, FirstPacket;
      hide VideoPackets;
      FirstAtOnce(rate);
      if packet >= frameEnd && esSent == |es| {
        NextFrame(rows);
        if rate >= ON_TIME_RATE {
          PeriodHasRoom(rate, frame, |es|);
        }
      }
      p := PutPacket();
      packet := packet + 1;
      UnitsShowFrames(done, es, esSent, pictures);
    }

    // A table, or else video, or else nothing.
    method PutPacket() returns (p: seq<Byte>)
      requires Valid()
      modifies this`psiSent, this`esSent, this`ccPat, this`ccPmt, this`ccSdt, this`ccVideo, this`log
      ensures Valid() && log == old(log) + [p] && |p| == TS_SIZE
      ensures old(psiSent) < 3 ==> psiSent == old(psiSent) + 1 && esSent == old(esSent)
      ensures old(psiSent) == 3 && old(esSent) < |es| ==> esSent > old(esSent)
      ensures Left() == if old(Left()) == 0 then 0 else old(Left()) - 1
      ensures Parse(p).Parsed? && (Parse(p).pid == PID_NULL <==> old(Left()) == 0)
    {
      hide IsContinuous, Units, Count, AreFrames, Parse, TablePacket, VideoPacket, Sdt;
      if psiSent < 3 {
        p := PutTable();
      } else if esSent < |es| {
        p := PutVideo();
      } else {
        p := PutNull();
      }
    }

    // Codes a picture behind the frame that was sent.
    method NextFrame(rows: seq<seq<Colour>>)
      requires Valid() && esSent == |es| && IsFramePicture(rows)
      modifies this`frame, this`frameEnd, this`es, this`esSent, this`psiSent, this`done, this`pictures
      ensures Valid() && frame == old(frame) + 1 && pictures == old(pictures) + [rows]
      ensures esSent == 0 && psiSent == 0 && 0 < |es| <= ES_CAPACITY
      ensures frameEnd == FirstPacket(rate, frame + 1)
    {
      hide IsContinuous, Units, Count, ShowsFrame, IsFramePicture, FirstPacket, AreFrames;
      assert es[..esSent] == es;
      ghost var sent := es;
      if esSent > 0 {
        done := done + [es];
      }
      frame := frame + 1;
      frameEnd := FirstPacket(rate, frame + 1);
      es := CodeFrame(rows, frame);
      OneMoreFrame(old(done), sent, pictures, es, rows);
      esSent, psiSent, pictures := 0, 0, pictures + [rows];
      assert done + [] == done;
    }

    // A packet into the log.
    ghost method Record(p: seq<Byte>)
      requires IsContinuous(log) && Parse(p).Parsed?
      requires Parse(p).pid != PID_NULL ==> Parse(p).cc == Count(log, Parse(p).pid) % 16
      modifies this`log
      ensures log == old(log) + [p] && IsContinuous(log)
      ensures Units(log) == WithPacket(Units(old(log)), Parse(p))
      ensures forall pid :: Count(log, pid)
                            == Count(old(log), pid) + if Parse(p).pid == pid then 1 else 0
    {
      OneMorePacket(log, p);
      log := log + [p];
    }

    /** The next table. */
    method PutTable() returns (p: seq<Byte>)
      requires Valid() && psiSent < 3
      modifies this`psiSent, this`ccPat, this`ccPmt, this`ccSdt, this`log
      ensures Valid() && log == old(log) + [p] && |p| == TS_SIZE && psiSent == old(psiSent) + 1
      ensures p == match old(psiSent)
                   case 0 => TablePacket(PID_PAT, old(ccPat), PAT)
                   case 1 => TablePacket(PID_PMT, old(ccPmt), PMT)
                   case _ => TablePacket(PID_SDT, old(ccSdt), Sdt())
      ensures Parse(p).Parsed? && Parse(p).pid != PID_NULL
      ensures Parse(p).pid == match old(psiSent) case 0 => 0 case 1 => 0x1000 case _ => 0x11
    {
      hide IsContinuous, Units, Count, Parse, TablePacket, WithPacket, AreFrames, Sdt;
      CounterGoesOn(Count(log, PID_PAT));
      CounterGoesOn(Count(log, PID_PMT));
      CounterGoesOn(Count(log, PID_SDT));
      hide Counter;
      if psiSent == 0 {
        p := PutSection(PID_PAT, ccPat, PAT);
        ccPat := (ccPat + 1) % 256;
      } else if psiSent == 1 {
        p := PutSection(PID_PMT, ccPmt, PMT);
        ccPmt := (ccPmt + 1) % 256;
      } else {
        p := PutSection(PID_SDT, ccSdt, Sdt());
        ccSdt := (ccSdt + 1) % 256;
      }
      psiSent := psiSent + 1;
    }

    // A packet with a section: it is counted for its PID and adds nothing to the video.
    method PutSection(pid: nat, cc: nat, body: seq<Byte>) returns (p: seq<Byte>)
      requires pid < 0x2000 && 3 <= |body| <= 179 && pid != PID_VIDEO && pid != PID_NULL
      requires IsContinuous(log) && cc == Counter(Count(log, pid))
      modifies this`log
      ensures log == old(log) + [p] && p == TablePacket(pid, cc, body) && IsContinuous(log)
      ensures Units(log) == Units(old(log)) && Parse(p).Parsed? && Parse(p).pid == pid
      ensures forall i :: Count(log, i) == Count(old(log), i) + if pid == i then 1 else 0
    {
      hide IsContinuous, Units, Count, Parse, TablePacket, WithPacket, Counter;
      CounterGoesOn(Count(log, pid));
      p := TablePacket(pid, cc, body);
      SectionIsNoVideo(Units(log), pid, cc, body);
      Record(p);
    }

    /** Takes from the PES packet what a packet has room for beside a clock reference, if any. */
    method PutVideo() returns (p: seq<Byte>)
      requires Valid() && esSent < |es|
      modifies this`esSent, this`ccVideo, this`log
      ensures Valid() && log == old(log) + [p] && |p| == TS_SIZE
      ensures var room := if old(esSent) == 0 then 176 else 184;
        esSent == if old(esSent) + room < |es| then old(esSent) + room else |es|
      ensures p == VideoPacket(old(ccVideo),
                               if old(esSent) == 0 then ClockReference(packet, rate) else [],
                               es[old(esSent)..esSent])
      ensures Parse(p).Parsed? && Parse(p).pid == PID_VIDEO
      ensures ReadClock(p)
           == if old(esSent) > 0 then NoClock
              else Ticks((packet * TS_SIZE + 11) * 8 * 27000000 / rate % (0x2_0000_0000 * 300))
    {
      hide IsContinuous, Units, Count, Parse, VideoPacket, AreFrames, ClockReference, WithPacket;
      hide Counter, ReadClock, ClockIn;
      ClockIsRead(packet, rate);
      CounterGoesOn(Count(log, PID_VIDEO));
      var isFirst := esSent == 0;
      var left := |es| - esSent;
      var room := 184 - if isFirst then 8 else 0;
      var payload := es[esSent..esSent + if left < room then left else room];
      UnitGrows(done, es, esSent, |payload|, Parsed(PID_VIDEO, isFirst, ccVideo % 16, payload));
      p := VideoPacket(ccVideo, if isFirst then ClockReference(packet, rate) else [], payload);
      VideoIsParsed(ccVideo, if isFirst then ClockReference(packet, rate) else [], payload);
      ClockIsFound(ccVideo, if isFirst then ClockReference(packet, rate) else [], payload);
      Record(p);
      ccVideo := (ccVideo + 1) % 256;
      esSent := esSent + |payload|;
    }

    method PutNull() returns (p: seq<Byte>)
      requires Valid()
      modifies this`log
      ensures Valid() && log == old(log) + [p] && |p| == TS_SIZE
      ensures Parse(p).Parsed? && Parse(p).pid == PID_NULL == 0x1FFF
    {
      hide IsContinuous, Units, Count, Parse, HeaderBytes, AreFrames;
      p := HeaderBytes(PID_NULL, false, 1, 0) + Fill(0xFF, 184);
      PlainIsParsed(PID_NULL, false, 0, Fill(0xFF, 184));
      Record(p);
    }
  }

  lemma TableIsParsed(pid: nat, cc: nat, body: seq<Byte>)
    requires pid < 0x2000 && 3 <= |body| <= 179
    ensures var payload := [0] + Section(body) + Fill(0xFF, 183 - |Section(body)|);
      Parse(TablePacket(pid, cc, body)) == Parsed(pid, true, cc % 16, payload)
  {
    hide HeaderBytes, Section, Parse;
    var payload := [0] + Section(body) + Fill(0xFF, 183 - |Section(body)|);
    assert TablePacket(pid, cc, body) == HeaderBytes(pid, true, 1, cc) + payload;
    PlainIsParsed(pid, true, cc, payload);
  }

  // A packet with a section adds nothing to the units of the video.
  lemma SectionIsNoVideo(units: seq<seq<Byte>>, pid: nat, cc: nat, body: seq<Byte>)
    requires pid < 0x2000 && 3 <= |body| <= 179 && pid != PID_VIDEO
    ensures var q := Parse(TablePacket(pid, cc, body));
      q.Parsed? && q.pid == pid && q.cc == cc % 16 && WithPacket(units, q) == units
  {
    hide Parse, TablePacket, Section;
    TableIsParsed(pid, cc, body);
  }
}
