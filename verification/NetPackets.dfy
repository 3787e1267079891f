// Source/AvFifo/DtAvPacket.c: the packets of a pipe, from the DtEthIp header to the payload.

module NetPackets {
  import opened Arithmetic
  import opened Bytes
  import opened EthIp

  const ETH_HEADER_SIZE: nat := 14
  const VLAN_TAG_SIZE: nat := 4
  const IPV4_HEADER_SIZE: nat := 20
  const IPV6_HEADER_SIZE: nat := 40
  const UDP_HEADER_SIZE: nat := 8
  const IP_PROTOCOL_UDP: Byte := 17

  /** The addresses and options that the headers of a stream's packets are made from. */
  datatype Net = Net(isVersion2: bool, alignment: int, srcMac: seq<Byte>, dstMac: seq<Byte>,
                     vlanId: int, vlanPriority: int, ipV6: bool, srcIp: seq<Byte>,
                     dstIp: seq<Byte>, diffServ: int, timeToLive: int, srcPort: int,
                     dstPort: int, ipIdentification: int)

  predicate IsNet(n: Net) {
    && |n.srcMac| == |n.dstMac| == 6 && |n.srcIp| == |n.dstIp| == 16
    && 0 <= n.srcPort < 0x10000 && 0 <= n.dstPort < 0x10000
    && 0 <= n.ipIdentification < 0x10000
  }

  predicate HasVlan(n: Net) {
    n.vlanId != 0 || n.vlanPriority != 0
  }

  function EthernetHeaderSize(n: Net): nat {
    ETH_HEADER_SIZE + if HasVlan(n) then VLAN_TAG_SIZE else 0
  }

  function IpHeaderSize(n: Net): nat {
    if n.ipV6 then IPV6_HEADER_SIZE else IPV4_HEADER_SIZE
  }

  /** The bytes in front of the UDP payload. */
  function NetHeaderSize(n: Net): nat {
    HEADER_SIZE + EthernetHeaderSize(n) + IpHeaderSize(n) + UDP_HEADER_SIZE
  }

  function FrameSize(n: Net, payloadSize: nat): nat {
    EthernetHeaderSize(n) + IpHeaderSize(n) + UDP_HEADER_SIZE + payloadSize
  }

  /** The bytes of a packet, padding included. */
  function PacketSize(n: Net, payloadSize: nat): nat {
    NumWords(FrameSize(n, payloadSize), n.alignment) * WORD_SIZE
  }

  // ---------------------------------------------------------------- Headers

  function EthBytes(n: Net): (s: seq<Byte>)
    requires IsNet(n)
    ensures |s| == EthernetHeaderSize(n)
  {
    n.dstMac + n.srcMac
    + (if HasVlan(n)
       then Put16(0x8100) + Put16(n.vlanPriority % 8 * 0x2000 + n.vlanId % 0x1000) else [])
    + Put16(if n.ipV6 then 0x86DD else 0x0800)
  }

  function IpBytes(n: Net, udpLength: nat): (s: seq<Byte>)
    requires IsNet(n)
    ensures |s| == IpHeaderSize(n)
  {
    if n.ipV6
    then [ToByte(0x60 + n.diffServ / 16 % 16), ToByte(n.diffServ % 16 * 16), 0, 0]
         + Put16(udpLength % 0x10000) + [IP_PROTOCOL_UDP, ToByte(n.timeToLive % 256)]
         + n.srcIp + n.dstIp
    else [0x45, ToByte(n.diffServ % 256)] + Put16((IPV4_HEADER_SIZE + udpLength) % 0x10000)
         + Put16(n.ipIdentification)
         + [0x40, 0, ToByte(n.timeToLive % 256), IP_PROTOCOL_UDP, 0, 0]
         + n.srcIp[..4] + n.dstIp[..4]
  }

  function UdpBytes(n: Net, udpLength: nat, dstPortOffset: int): (s: seq<Byte>)
    requires IsNet(n)
    ensures |s| == UDP_HEADER_SIZE
  {
    Put16(n.srcPort) + Put16((n.dstPort + dstPortOffset) % 0x10000) + Put16(udpLength % 0x10000)
    + Put16(0)
  }

  /** The card's own header, with the time of day that the packet is to leave at. */
  function HeaderOf(n: Net, payloadSize: nat, todNs: nat): Header {
    var frameSize := FrameSize(n, payloadSize);
    var ip := HEADER_SIZE + EthernetHeaderSize(n);
    Header(n.isVersion2, NumWords(frameSize, n.alignment), frameSize,
           ip + if n.ipV6 then 8 else 12, ip + IpHeaderSize(n), PROTO_UDP,
           if n.ipV6 then TYPE_IPV6 else TYPE_IPV4, 0, false, false, false, false, true, 0,
           todNs / NS_PER_SEC % 0x1_0000_0000, todNs % NS_PER_SEC)
  }

  /** All headers of a packet. */
  function NetHeaders(n: Net, payloadSize: nat, dstPortOffset: int, todNs: nat): (s: seq<Byte>)
    requires IsNet(n)
    ensures |s| == NetHeaderSize(n)
  {
    Write(HeaderOf(n, payloadSize, todNs)) + EthBytes(n)
    + IpBytes(n, UDP_HEADER_SIZE + payloadSize)
    + UdpBytes(n, UDP_HEADER_SIZE + payloadSize, dstPortOffset)
  }

  function Zeros(n: nat): (s: seq<Byte>)
    ensures |s| == n
  {
    seq(n, _ => 0)
  }

  // ---------------------------------------------------------------- Sizes

  /** A pipe pads to whole words. */
  predicate IsAligned(alignment: int) {
    alignment <= WORD_SIZE || alignment % WORD_SIZE == 0
  }

  // Rounding up to a unit that is whole words.
  lemma RoundedUp(bytes: nat, unit: nat)
    requires unit > 0 && unit % WORD_SIZE == 0
    ensures var size := (bytes + unit - 1) / unit * unit;
      bytes <= size < bytes + unit && size % WORD_SIZE == 0 && size / WORD_SIZE * WORD_SIZE == size
      && size % unit == 0
  {
    var n := (bytes + unit - 1) / unit;
    DivBounds(bytes + unit - 1, unit);
    MultipleOf(unit, n);
    var k := unit / WORD_SIZE;
    assert n * unit == WORD_SIZE * (n * k);
    MultipleOf(WORD_SIZE, n * k);
  }

  function Unit(alignment: int): nat {
    if alignment > WORD_SIZE then alignment else WORD_SIZE
  }

  /** A packet has room for its headers and payload, and less than a unit of padding. */
  lemma SizeHasRoom(n: Net, payloadSize: nat)
    requires IsAligned(n.alignment)
    ensures var used := NetHeaderSize(n) + payloadSize;
      used <= PacketSize(n, payloadSize) < used + Unit(n.alignment)
      && PacketSize(n, payloadSize) % Unit(n.alignment) == 0
  {
    RoundedUp(NetHeaderSize(n) + payloadSize, Unit(n.alignment));
  }

  /** A larger payload never needs a smaller packet. */
  lemma SizeGrows(n: Net, a: nat, b: nat)
    requires IsAligned(n.alignment) && a <= b
    ensures PacketSize(n, a) <= PacketSize(n, b)
  {
    var unit, x, y := Unit(n.alignment), NetHeaderSize(n) + a, NetHeaderSize(n) + b;
    RoundedUp(x, unit);
    RoundedUp(y, unit);
    DivMonotone(x + unit - 1, y + unit - 1, unit);
    MulMonotone((x + unit - 1) / unit, (y + unit - 1) / unit, unit);
  }

  /**
   * Packets have room for every payload if and only if the pipe's alignment is one that pads
   * to whole words; a data width of 96 bits, which opening a pipe accepts, is not.
   */
  lemma RoomNeedsAlignment(n: Net)
    ensures IsAligned(n.alignment)
       <==> forall payloadSize: nat ::
              NetHeaderSize(n) + payloadSize <= PacketSize(n, payloadSize)
  {
    if IsAligned(n.alignment) {
      forall payloadSize: nat
        ensures NetHeaderSize(n) + payloadSize <= PacketSize(n, payloadSize)
      {
        SizeHasRoom(n, payloadSize);
      }
    } else {
      FallsShort(n);
    }
  }

  lemma FallsShort(n: Net)
    requires !IsAligned(n.alignment)
    ensures exists payloadSize: nat ::
              NetHeaderSize(n) + payloadSize > PacketSize(n, payloadSize)
  {
    var a, m := n.alignment, 8 * NetHeaderSize(n) + 1;
    MulMonotone(1, a, m);
    var payloadSize: nat := a * m - NetHeaderSize(n);
    RoundsToItself(a, m);
    assert NetHeaderSize(n) + payloadSize > PacketSize(n, payloadSize) by {
      OddMultiple(a, NetHeaderSize(n));
    }
  }

  lemma RoundsToItself(a: nat, m: nat)
    requires a > 0
    ensures (a * m + a - 1) / a * a == a * m
  {
    DivUnique(a * m + a - 1, a, m);
  }

  lemma OddMultiple(a: nat, q: nat)
    requires a % WORD_SIZE != 0
    ensures a * (8 * q + 1) % WORD_SIZE != 0
    ensures a * (8 * q + 1) / WORD_SIZE * WORD_SIZE < a * (8 * q + 1)
  {
    assert a * (8 * q + 1) == 8 * (a * q) + a;
  }

  // ---------------------------------------------------------------- Packets

  /** A whole packet in the pipe: headers, UDP payload, and zeros up to its size. */
  function PacketBytes(n: Net, payload: seq<Byte>, dstPortOffset: int, todNs: nat): (s: seq<Byte>)
    requires IsNet(n) && IsAligned(n.alignment)
    ensures |s| == PacketSize(n, |payload|)
  {
    SizeHasRoom(n, |payload|);
    NetHeaders(n, |payload|, dstPortOffset, todNs) + payload
    + Zeros(PacketSize(n, |payload|) - NetHeaderSize(n) - |payload|)
  }

  /** What the parsers get of a packet: its arrival, its sub-stream, its UDP payload. */
  datatype RxPacket = NoPacket | RxPacket(todNs: nat, subStream: int, payload: seq<Byte>)

  function Parse(packet: seq<Byte>): RxPacket {
    if |packet| < HEADER_SIZE || !Read(packet).isValid then NoPacket
    else
      var h := Read(packet).header;
      var frameEnd := HeaderSize(h.packetType) + h.frameSize;
      if frameEnd > |packet| || h.isUdp != PROTO_UDP
         || (h.packetType != TYPE_IPV4 && h.packetType != TYPE_IPV6)
         || h.portOffset + UDP_HEADER_SIZE > frameEnd
      then NoPacket
      else
        var udpLength := Get16(packet[h.portOffset + 4..]);
        if udpLength < UDP_HEADER_SIZE || h.portOffset + udpLength > frameEnd then NoPacket
        else RxPacket(h.seconds * NS_PER_SEC + h.nanoseconds, h.subStream,
                      packet[h.portOffset + UDP_HEADER_SIZE..h.portOffset + udpLength])
  }

  /** A payload that the headers have room for. */
  predicate FitsNet(n: Net, payloadSize: nat) {
    && IsNet(n) && IsAligned(n.alignment)
    && UDP_HEADER_SIZE + payloadSize < 0x10000
    && (if n.isVersion2 then PacketSize(n, payloadSize) < 2048 * WORD_SIZE && n.alignment <= 256
        else PacketSize(n, payloadSize) < 256 * WORD_SIZE)
  }

  lemma HeaderOfFits(n: Net, payloadSize: nat, todNs: nat)
    requires FitsNet(n, payloadSize)
    ensures Fits(HeaderOf(n, payloadSize, todNs))
  {
    SizeHasRoom(n, payloadSize);
    hide NumWords;
  }

  // Where the UDP header and the payload are in a packet.
  predicate HasParts(s: seq<Byte>, header: seq<Byte>, udp: nat, udpLength: seq<Byte>,
                     payload: seq<Byte>)
  {
    && |header| <= |s| && udp + UDP_HEADER_SIZE + |payload| <= |s|
    && s[..|header|] == header && s[udp + 4..udp + 6] == udpLength
    && s[udp + UDP_HEADER_SIZE..udp + UDP_HEADER_SIZE + |payload|] == payload
  }

  lemma PacketParts(n: Net, payload: seq<Byte>, dstPortOffset: int, todNs: nat)
    requires FitsNet(n, |payload|)
    ensures HasParts(PacketBytes(n, payload, dstPortOffset, todNs),
                     Write(HeaderOf(n, |payload|, todNs)), NetHeaderSize(n) - UDP_HEADER_SIZE,
                     Put16(UDP_HEADER_SIZE + |payload|), payload)
  {
    hide Write, EthBytes, IpBytes, Put16, Get16, NumWords, HeaderOf, PacketSize, FitsNet, Zeros;
    hide HasParts, IsNet, IsAligned, Unit, HasVlan;
    NetFacts(n, |payload|);
    SizeHasRoom(n, |payload|);
    var udpLength := UDP_HEADER_SIZE + |payload|;
    Parts(Write(HeaderOf(n, |payload|, todNs)), EthBytes(n), IpBytes(n, udpLength),
          Put16(n.srcPort), Put16((n.dstPort + dstPortOffset) % 0x10000), Put16(udpLength),
          Put16(0), payload, Zeros(PacketSize(n, |payload|) - NetHeaderSize(n) - |payload|));
  }

  lemma Parts(w: seq<Byte>, e: seq<Byte>, i: seq<Byte>, p: seq<Byte>, q: seq<Byte>, l: seq<Byte>,
              z: seq<Byte>, payload: seq<Byte>, zeros: seq<Byte>)
    requires |p| == |q| == |l| == |z| == 2
    ensures HasParts((w + e + i + (p + q + l + z)) + payload + zeros, w, |w| + |e| + |i|, l,
                     payload)
  {
    var s, udp := (w + e + i + (p + q + l + z)) + payload + zeros, |w| + |e| + |i|;
    var ports := p + q;
    assert p + q + l + z == ports + l + z;
    var headers := w + e + i + (p + q + l + z);
    assert headers[udp..] == p + q + l + z;
    assert s[udp + 4..udp + 6] == headers[udp..][4..6] == l;
  }

  lemma NetFacts(n: Net, payloadSize: nat)
    requires FitsNet(n, payloadSize)
    ensures IsNet(n) && IsAligned(n.alignment) && UDP_HEADER_SIZE + payloadSize < 0x10000
  {
  }

  // What a packet's header says once it is read.
  lemma HeaderIsRead(n: Net, payload: seq<Byte>, dstPortOffset: int, todNs: nat)
    requires FitsNet(n, |payload|)
    ensures Read(PacketBytes(n, payload, dstPortOffset, todNs))
         == Reading(true, HeaderOf(n, |payload|, todNs))
  {
    hide Write, Read, NetHeaders, Fits, HeaderOf, PacketSize;
    PacketParts(n, payload, dstPortOffset, todNs);
    HeaderOfFits(n, |payload|, todNs);
    var s := PacketBytes(n, payload, dstPortOffset, todNs);
    SizeHasRoom(n, |payload|);
    assert s == s[..HEADER_SIZE] + s[HEADER_SIZE..];
    HeaderRoundTrip(HeaderOf(n, |payload|, todNs), s[HEADER_SIZE..]);
  }

  /** A time as a header holds it: its seconds have 32 bits. */
  function HeldTod(todNs: nat): (ns: nat)
    ensures todNs < 0x1_0000_0000 * NS_PER_SEC ==> ns == todNs
  {
    todNs / NS_PER_SEC % 0x1_0000_0000 * NS_PER_SEC + todNs % NS_PER_SEC
  }

  /** A packet is parsed to the payload and the time it was made of. */
  lemma PacketRoundTrip(n: Net, payload: seq<Byte>, dstPortOffset: int, todNs: nat)
    requires FitsNet(n, |payload|)
    ensures Parse(PacketBytes(n, payload, dstPortOffset, todNs))
         == RxPacket(HeldTod(todNs), 0, payload)
  {
    hide Read, PacketBytes, PacketSize, Get16, Put16, NumWords, IsAligned, Unit, Write, IsNet;
    HeaderIsRead(n, payload, dstPortOffset, todNs);
    PacketParts(n, payload, dstPortOffset, todNs);
    SizeHasRoom(n, |payload|);
    var s, udp := PacketBytes(n, payload, dstPortOffset, todNs), NetHeaderSize(n) - UDP_HEADER_SIZE;
    assert s[udp + 4..][..2] == s[udp + 4..udp + 6];
    SameGet16(s[udp + 4..], UDP_HEADER_SIZE + |payload|);
  }

  lemma SameGet16(s: seq<Byte>, v: int)
    requires |s| >= 2 && 0 <= v < 0x10000 && s[..2] == Put16(v)
    ensures Get16(s) == v
  {
    assert s[0] == s[..2][0] && s[1] == s[..2][1];
  }
}
