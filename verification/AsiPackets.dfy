// Source/Ts/DtTsTrp.c: transparent packets as a card writes them, and what is delivered of each.

module AsiPackets {
  import opened AsiStream
  import opened Bytes
  import opened EthIp

  // ---------------------------------------------------------------- What a card writes

  /**
   * A transparent packet: the time it came, a payload with what fills it up to 204 bytes, and a
   * trailer with the sync nibble, whether the payload starts with its sync byte, three more bits,
   * how many bytes of the payload are valid, and a sequence number.
   */
  datatype Transparent = Transparent(seconds: nat, nanoseconds: nat, data: seq<Byte>,
                                     syncNibble: nat, hasSync: bool, bits: nat, valid: nat,
                                     sequence: nat)

  predicate Fits(t: Transparent) {
    && t.seconds < 0x1_0000_0000 && t.nanoseconds < 0x1_0000_0000 && |t.data| == 204
    && t.syncNibble < 16 && t.bits < 8 && t.valid < 256 && t.sequence < 0x10000
  }

  /** A number of 32 bits, least significant byte first. */
  function Le32(x: nat): (s: seq<Byte>)
    requires x < 0x1_0000_0000
    ensures |s| == 4
  {
    [ToByte(x % 256), ToByte(x / 256 % 256), ToByte(x / 0x1_0000 % 256), ToByte(x / 0x100_0000)]
  }

  function Trailer(t: Transparent): (s: seq<Byte>)
    requires Fits(t)
    ensures |s| == 4
  {
    [ToByte(t.syncNibble * 16 + (if t.hasSync then 8 else 0) + t.bits), ToByte(t.valid),
     ToByte(t.sequence % 256), ToByte(t.sequence / 256)]
  }

  function Print(t: Transparent): (s: seq<Byte>)
    requires Fits(t)
    ensures |s| == TRP_SIZE
  {
    Le32(t.seconds) + Le32(t.nanoseconds) + t.data + Trailer(t)
  }

  // ---------------------------------------------------------------- What is delivered

  /** What stands in front: nothing, the time in periods of 54 MHz, or the time of day. */
  function Front(stamp: Stamp, t: Transparent): seq<Byte>
    requires Fits(t)
  {
    match stamp
    case NoStamp => []
    case Stamp32 =>
      Le32((t.seconds * 1_000_000_000 + t.nanoseconds) * 54 / 1000 % 0x1_0000_0000)
    case StampTod => Le32(t.seconds) + Le32(t.nanoseconds)
  }

  /** Packets of 188 bytes, of 204 bytes, the valid bytes, or all of them and the trailer. */
  function Body(ts: TsMode, t: Transparent): seq<Byte>
    requires Fits(t) && t.valid <= 204
  {
    match ts
    case St188 => t.data[..188]
    case St204 => if t.valid == 188 then t.data[..188] + seq(16, _ => 0) else t.data
    case StMp2 => t.data[..t.valid]
    case StRaw => t.data[..t.valid]
    case StTrp => t.data + Trailer(t)
  }

  /** The valid counts that a mode takes. */
  predicate TakesCount(ts: TsMode, valid: nat) {
    if ts == StRaw || ts == StTrp then valid <= 204 else valid == 188 || valid == 204
  }

  predicate IsInSync(ts: TsMode, t: Transparent) {
    Fits(t) && t.syncNibble == 5 && TakesCount(ts, t.valid)
  }

  /** Its front and body; of a packet without a sync byte nothing in modes for transport packets. */
  function Delivered(mode: Mode, t: Transparent): seq<Byte>
    requires IsInSync(mode.ts, t)
  {
    if !t.hasSync && mode.ts != StRaw && mode.ts != StTrp then []
    else Front(mode.stamp, t) + Body(mode.ts, t)
  }

  /** A packet is in sync exactly when its nibble is 5 and the mode takes its count. */
  lemma PacketIsDecoded(mode: Mode, t: Transparent)
    requires Fits(t)
    ensures Decode(mode, Print(t))
         == if IsInSync(mode.ts, t) then Output(Delivered(mode, t)) else NotInSync
  {
    hide Print, Le32, Trailer, HasSyncNibble, Value, Front, Body;
    FieldsAreRead(t);
    if TakesCount(mode.ts, t.valid) {
      OutputIs(mode, t);
    }
  }

  // What is put out of a packet that is.
  lemma OutputIs(mode: Mode, t: Transparent)
    requires Fits(t) && TakesCount(mode.ts, t.valid)
    ensures var s, n := Print(t), PayloadBytes(mode.ts, t.valid);
      var zeros: seq<Byte> := if mode.ts.St204? && t.valid == 188 then seq(16, _ => 0) else [];
      && 8 + n <= |s|
      && Front(mode.stamp, t) + Body(mode.ts, t)
         == match mode.stamp
            case NoStamp => s[8..8 + n] + zeros
            case Stamp32 => WriteLe(Ticks(s), 4) + s[8..8 + n] + zeros
            case StampTod => s[..8 + n] + zeros
  {
    hide Print, Le32, Trailer, Body, Ticks, ReadLe, WriteLe, PayloadBytes;
    TimeIsRead(t);
    PayloadIsRead(mode.ts, t);
    var s, n := Print(t), PayloadBytes(mode.ts, t.valid);
    var zeros: seq<Byte> := if mode.ts.St204? && t.valid == 188 then seq(16, _ => 0) else [];
    assert s[..8 + n] == s[..8] + s[8..8 + n];
    Associate(Front(mode.stamp, t), s[8..8 + n], zeros);
  }

  lemma Associate(a: seq<Byte>, b: seq<Byte>, c: seq<Byte>)
    ensures a + (b + c) == a + b + c && [] + b == b
  {
  }

  // The trailer's fields.
  lemma FieldsAreRead(t: Transparent)
    requires Fits(t)
    ensures var s := Print(t);
      && s[212..216] == Trailer(t) && Value(s[213]) == t.valid
      && (HasSyncNibble(s[212]) <==> t.syncNibble == 5)
      && (Value(s[212]) / 8 % 2 == 1 <==> t.hasSync)
  {
    hide Le32, Value;
    var s := Print(t);
    assert s[212..216] == Trailer(t);
    assert s[212] == s[212..216][0] && s[213] == s[212..216][1];
    SyncByte(t);
  }

  lemma SyncByte(t: Transparent)
    requires Fits(t)
    ensures Value(Trailer(t)[0]) / 16 == t.syncNibble && Value(Trailer(t)[1]) == t.valid
    ensures Value(Trailer(t)[0]) / 8 % 2 == 1 <==> t.hasSync
  {
    ByteValue(t.syncNibble * 16 + (if t.hasSync then 8 else 0) + t.bits);
    ByteValue(t.valid);
    hide Value;
  }

  lemma ByteValue(x: nat)
    requires x < 256
    ensures Value(ToByte(x)) == x
  {
  }

  // The bytes of the payload that a mode delivers.
  lemma PayloadIsRead(ts: TsMode, t: Transparent)
    requires Fits(t) && TakesCount(ts, t.valid)
    ensures var s, n := Print(t), PayloadBytes(ts, t.valid);
      var zeros: seq<Byte> := if ts.St204? && t.valid == 188 then seq(16, _ => 0) else [];
      8 + n <= |s| && s[8..8 + n] + zeros == Body(ts, t)
  {
    hide Le32, Trailer;
    var s := Print(t);
    assert s[8..212] == t.data && s[212..216] == Trailer(t);
    if ts.StTrp? {
      assert s[8..216] == s[8..212] + s[212..216];
    } else {
      assert s[8..8 + PayloadBytes(ts, t.valid)] == s[8..212][..PayloadBytes(ts, t.valid)];
    }
  }

  // The time in front, as it is and in ticks.
  lemma TimeIsRead(t: Transparent)
    requires Fits(t)
    ensures var s := Print(t);
      && s[..8] == Le32(t.seconds) + Le32(t.nanoseconds)
      && WriteLe(Ticks(s), 4)
         == Le32((t.seconds * 1_000_000_000 + t.nanoseconds) * 54 / 1000 % 0x1_0000_0000)
  {
    hide Le32, ReadLe, WriteLe;
    var s := Print(t);
    assert s[..4] == Le32(t.seconds) && s[4..8] == Le32(t.nanoseconds);
    assert s[..8] == s[..4] + s[4..8];
    Le32IsRead(t.seconds);
    Le32IsRead(t.nanoseconds);
    TicksOf(t.seconds, t.nanoseconds);
    Le32IsWritten(Ticks(s));
  }

  lemma TicksOf(seconds: nat, nanoseconds: nat)
    ensures (seconds * 1_000_000_000 + nanoseconds) * 54 / 1000
         == seconds * 54_000_000 + nanoseconds * 54 / 1000
  {
  }

  lemma Le32IsWritten(x: nat)
    requires x < 0x1_0000_0000
    ensures WriteLe(x, 4) == Le32(x)
  {
    Quarters(x);
    FourBytes(x, x / 256, x / 0x1_0000, x / 0x100_0000);
  }

  lemma FourBytes(x: nat, x1: nat, x2: nat, x3: nat)
    requires x1 == x / 256 && x2 == x1 / 256 && x3 == x2 / 256 && x3 < 256
    ensures WriteLe(x, 4)
         == [ToByte(x % 256), ToByte(x1 % 256), ToByte(x2 % 256), ToByte(x3)]
  {
    hide ToByte, WriteLe;
    OneByte(x, x1, 3);
    OneByte(x1, x2, 2);
    OneByte(x2, x3, 1);
    LastByte(x3);
  }

  lemma OneByte(x: nat, rest: nat, more: nat)
    requires rest == x / 256
    ensures WriteLe(x, more + 1) == [ToByte(x % 256)] + WriteLe(rest, more)
  {
  }

  lemma LastByte(x: nat)
    requires x < 256
    ensures WriteLe(x, 1) == [ToByte(x)]
  {
    assert WriteLe(x / 256, 0) == [];
  }

  lemma Quarters(x: nat)
    requires x < 0x1_0000_0000
    ensures x / 256 / 256 == x / 0x1_0000 && x / 0x1_0000 / 256 == x / 0x100_0000
    ensures x / 0x100_0000 < 256
  {
  }

  lemma Le32IsRead(x: nat)
    requires x < 0x1_0000_0000
    ensures ReadLe(Le32(x)) == x
  {
    hide Le32, ReadLe, WriteLe;
    Le32IsWritten(x);
    Weights();
    LeRoundTrip(x, 4);
  }

  // ---------------------------------------------------------------- A stream of packets

  predicate AreInSync(ts: TsMode, packets: seq<Transparent>) {
    forall i | 0 <= i < |packets| :: IsInSync(ts, packets[i])
  }

  function PrintAll(ts: TsMode, packets: seq<Transparent>): (s: seq<Byte>)
    requires AreInSync(ts, packets)
    ensures |s| == TRP_SIZE * |packets|
  {
    if packets == [] then []
    else
      assert IsInSync(ts, packets[0]);
      Print(packets[0]) + PrintAll(ts, packets[1..])
  }

  function AllDelivered(mode: Mode, packets: seq<Transparent>): seq<Byte>
    requires AreInSync(mode.ts, packets)
  {
    if packets == [] then []
    else
      assert IsInSync(mode.ts, packets[0]);
      Delivered(mode, packets[0]) + AllDelivered(mode, packets[1..])
  }

  /** Behind front, what is delivered of a scanned stream is out. */
  ghost predicate Gives(mode: Mode, front: seq<Byte>, stream: seq<Byte>, out: seq<Byte>) {
    var all := front + stream;
    && IsWalk(mode, all, |front|, |all|, [])
    && WalkOutput(mode, all, |front|, |all|, []) == out
  }

  /** Of packets in sync, one behind the other, what is delivered is that of each, in order. */
  lemma {:induction false} StreamIsDelivered(mode: Mode, front: seq<Byte>,
                                             packets: seq<Transparent>)
    requires AreInSync(mode.ts, packets)
    ensures Gives(mode, front, PrintAll(mode.ts, packets), AllDelivered(mode, packets))
    decreases |packets|
  {
    if packets == [] {
      assert front + [] == front;
    } else {
      FirstInSync(mode.ts, packets);
      hide Decode, Print, Delivered, IsInSync, Gives, Fits, AreInSync;
      PacketIsDecoded(mode, packets[0]);
      StreamIsDelivered(mode, front + Print(packets[0]), packets[1..]);
      WalkBegins(mode, front, Print(packets[0]), PrintAll(mode.ts, packets[1..]),
                 AllDelivered(mode, packets[1..]));
    }
  }

  lemma FirstInSync(ts: TsMode, packets: seq<Transparent>)
    requires AreInSync(ts, packets) && packets != []
    ensures IsInSync(ts, packets[0]) && Fits(packets[0]) && AreInSync(ts, packets[1..])
  {
  }

  lemma WalkBegins(mode: Mode, front: seq<Byte>, first: seq<Byte>, rest: seq<Byte>,
                   out: seq<Byte>)
    requires |first| == TRP_SIZE && Decode(mode, first).Output?
    requires Gives(mode, front + first, rest, out)
    ensures Gives(mode, front, first + rest, Decode(mode, first).bytes + out)
  {
    hide Decode;
    assert front + (first + rest) == front + first + rest;
    assert PacketAt(front + (first + rest), |front|) == first;
  }

  // ---------------------------------------------------------------- Where packets are found

  /** The trailers of three packets are where they are when the packets follow each other. */
  predicate HasTrailers(buf: seq<Byte>, pos: nat, a: Transparent, b: Transparent, c: Transparent)
    requires Fits(a) && Fits(b) && Fits(c)
  {
    && pos + 3 * TRP_SIZE <= |buf|
    && buf[pos..pos + 4] == Trailer(a) && buf[pos + 216..pos + 220] == Trailer(b)
    && buf[pos + 432..pos + 436] == Trailer(c)
  }

  /**
   * The search stops there exactly when all three are in sync, the sequence numbers count on
   * modulo 2^16, and the counts are ones the mode takes, the first being any up to 204.
   */
  lemma RunIsOfPackets(ts: TsMode, buf: seq<Byte>, pos: nat, a: Transparent, b: Transparent,
                       c: Transparent)
    requires Fits(a) && Fits(b) && Fits(c) && HasTrailers(buf, pos, a, b, c)
    ensures IsRun(ts, buf, pos)
       <==> && a.syncNibble == b.syncNibble == c.syncNibble == 5 && a.valid <= 204
            && TakesCount(ts, b.valid) && TakesCount(ts, c.valid)
            && b.sequence == (a.sequence + 1) % 0x10000 && c.sequence == (a.sequence + 2) % 0x10000
  {
    hide HasSyncNibble, Trailer, ReadLe;
    TrailerIsRead(buf, pos, a);
    TrailerIsRead(buf, pos + 216, b);
    TrailerIsRead(buf, pos + 432, c);
    hide Fits;
  }

  lemma TrailerIsRead(buf: seq<Byte>, pos: nat, t: Transparent)
    requires Fits(t) && pos + 4 <= |buf| && buf[pos..pos + 4] == Trailer(t)
    ensures (HasSyncNibble(buf[pos]) <==> t.syncNibble == 5) && Value(buf[pos + 1]) == t.valid
    ensures ReadLe(buf[pos + 2..pos + 4]) == t.sequence
  {
    var s := buf[pos..pos + 4];
    assert buf[pos] == s[0] && buf[pos + 1] == s[1];
    SyncByte(t);
    assert buf[pos + 2..pos + 4] == s[2..4];
    hide ReadLe, Trailer, Value;
    SequenceIsRead(t);
  }

  lemma SequenceIsRead(t: Transparent)
    requires Fits(t)
    ensures ReadLe(Trailer(t)[2..4]) == t.sequence
  {
    var s := Trailer(t)[2..4];
    assert s[1..] == [s[1]] && s[1..][1..] == [];
    ByteValue(t.sequence % 256);
    ByteValue(t.sequence / 256);
    hide Value, Trailer;
    assert ReadLe([]) == 0;
  }
}
