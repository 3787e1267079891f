// Source/AvFifo/DtAvPacket.c: the packets of a pipe, as a receiver of the network reads them.

/**
 * Headers as the standards lay them out: Ethernet in IEEE 802.3 and 802.1Q, IPv4 in RFC 791, IPv6
 * in RFC 8200, UDP in RFC 768.
 */
module NetReceiver {
  import opened Arithmetic
  import opened Bytes
  import opened EthIp
  import opened Headers
  import opened NetPackets

  // ---------------------------------------------------------------- The layouts

  datatype Tag = Untagged | Tagged(priority: int, mayDrop: bool, id: int)

  datatype Eth = NoEth | Eth(destination: seq<Byte>, source: seq<Byte>, tag: Tag, etherType: int,
                             data: seq<Byte>)

  function ReadEth(s: seq<Byte>): Eth {
    if |s| < 14 then NoEth
    else if Get16(s[12..]) != 0x8100 then Eth(s[..6], s[6..12], Untagged, Get16(s[12..]), s[14..])
    else if |s| < 18 then NoEth
    else
      var control := Get16(s[14..]);
      Eth(s[..6], s[6..12], Tagged(control / 0x2000, control / 0x1000 % 2 == 1, control % 0x1000),
          Get16(s[16..]), s[18..])
  }

  /** A packet of either version; data is what the lengths leave of it. */
  datatype Ip =
    | NoIp
    | IpV4(serviceType: int, totalLength: int, identification: int, mayFragment: bool,
           isFragment: bool, timeToLive: int, protocol: int, source: seq<Byte>,
           destination: seq<Byte>, data: seq<Byte>)
    | IpV6(trafficClass: int, flowLabel: int, payloadLength: int, nextHeader: int, hopLimit: int,
           source: seq<Byte>, destination: seq<Byte>, data: seq<Byte>)

  function ReadIp(etherType: int, s: seq<Byte>): Ip {
    if etherType == 0x0800 then ReadIpV4(s)
    else if etherType == 0x86DD then ReadIpV6(s)
    else NoIp
  }

  function ReadIpV4(s: seq<Byte>): Ip {
    if |s| < 20 || Value(s[0]) / 16 != 4 then NoIp
    else
      var header, total, fragment := Value(s[0]) % 16 * 4, Get16(s[2..]), Get16(s[6..]);
      if header < 20 || total < header || total > |s| then NoIp
      else IpV4(Value(s[1]), total, Get16(s[4..]), fragment / 0x4000 % 2 == 0,
                fragment / 0x2000 % 2 == 1 || fragment % 0x2000 != 0, Value(s[8]), Value(s[9]),
                s[12..16], s[16..20], s[header..total])
  }

  function ReadIpV6(s: seq<Byte>): Ip {
    if |s| < 40 || Value(s[0]) / 16 != 6 then NoIp
    else
      var length := Get16(s[4..]);
      if 40 + length > |s| then NoIp
      else IpV6(Value(s[0]) % 16 * 16 + Value(s[1]) / 16,
                Value(s[1]) % 16 * 0x10000 + Get16(s[2..]), length, Value(s[6]), Value(s[7]),
                s[8..24], s[24..40], s[40..40 + length])
  }

  datatype Udp = NoUdp | Udp(sourcePort: int, destinationPort: int, length: int, data: seq<Byte>)

  function ReadUdp(s: seq<Byte>): Udp {
    if |s| < 8 then NoUdp
    else
      var length := Get16(s[4..]);
      if length < 8 || length > |s| then NoUdp
      else Udp(Get16(s), Get16(s[2..]), length, s[8..length])
  }

  /** What a receiver has of a frame. */
  datatype Received = Received(eth: Eth, ip: Ip, udp: Udp)

  function ReadFrame(s: seq<Byte>): Received {
    var eth := ReadEth(s);
    if eth.NoEth? then Received(eth, NoIp, NoUdp)
    else
      var ip := ReadIp(eth.etherType, eth.data);
      Received(eth, ip, if ip.NoIp? then NoUdp else ReadUdp(ip.data))
  }

  // ---------------------------------------------------------------- Header by header

  lemma EthIsRead(n: Net, rest: seq<Byte>)
    requires IsNet(n)
    ensures ReadEth(EthBytes(n) + rest)
         == Eth(n.dstMac, n.srcMac,
                if n.vlanId != 0 || n.vlanPriority != 0
                then Tagged(n.vlanPriority % 8, false, n.vlanId % 0x1000) else Untagged,
                if n.ipV6 then 0x86DD else 0x0800, rest)
  {
    hide Get16, Put16;
    var s := EthBytes(n) + rest;
    var etherType := if n.ipV6 then 0x86DD else 0x0800;
    assert s[..6] == n.dstMac && s[6..12] == n.srcMac;
    if HasVlan(n) {
      var control := n.vlanPriority % 8 * 0x2000 + n.vlanId % 0x1000;
      assert s[12..14] == Put16(0x8100) && s[14..16] == Put16(control);
      assert s[16..18] == Put16(etherType) && s[18..] == rest;
      Get16At(s, 12, 0x8100);
      Get16At(s, 14, control);
      Get16At(s, 16, etherType);
    } else {
      assert s[12..14] == Put16(etherType) && s[14..] == rest;
      Get16At(s, 12, etherType);
    }
  }

  lemma IpV4IsRead(n: Net, data: seq<Byte>)
    requires IsNet(n) && !n.ipV6 && 20 + |data| < 0x10000
    ensures ReadIpV4(IpBytes(n, |data|) + data)
         == IpV4(n.diffServ % 256, 20 + |data|, n.ipIdentification, false, false,
                 n.timeToLive % 256, 17, n.srcIp[..4], n.dstIp[..4], data)
  {
    hide Get16, Put16;
    var s := IpBytes(n, |data|) + data;
    assert s[0] == 0x45 && s[1] == ToByte(n.diffServ % 256);
    assert s[2..4] == Put16(20 + |data|) && s[4..6] == Put16(n.ipIdentification);
    assert s[6] == 0x40 && s[7] == 0 && s[8] == ToByte(n.timeToLive % 256) && s[9] == 17;
    assert s[12..16] == n.srcIp[..4] && s[16..20] == n.dstIp[..4] && s[20..20 + |data|] == data;
    Get16At(s, 2, 20 + |data|);
    Get16At(s, 4, n.ipIdentification);
    WholeDatagram(s);
  }

  lemma WholeDatagram(s: seq<Byte>)
    requires |s| >= 8 && s[6] == 0x40 && s[7] == 0
    ensures Get16(s[6..]) == 0x4000
  {
  }

  lemma IpV6IsRead(n: Net, data: seq<Byte>)
    requires IsNet(n) && n.ipV6 && |data| < 0x10000
    ensures ReadIpV6(IpBytes(n, |data|) + data)
         == IpV6(n.diffServ % 256, 0, |data|, 17, n.timeToLive % 256, n.srcIp, n.dstIp, data)
  {
    hide Get16, Put16, Value, ToByte;
    IpV6Parts(n, data);
    var s := IpBytes(n, |data|) + data;
    hide IpBytes, IsNet;
    Get16At(s, 4, |data|);
    NoFlowLabel(s);
    TrafficIsRead(s, n.diffServ);
    IsUdp();
    ByteValue(n.timeToLive % 256);
  }

  lemma TrafficIsRead(s: seq<Byte>, x: int)
    requires |s| >= 2
    requires s[0] == ToByte(0x60 + x / 16 % 16) && s[1] == ToByte(x % 16 * 16)
    ensures Value(s[0]) / 16 == 6 && Value(s[1]) % 16 == 0
    ensures Value(s[0]) % 16 * 16 + Value(s[1]) / 16 == x % 256
  {
    hide ToByte, Value;
    TrafficClass(x);
    ByteValue(0x60 + x / 16 % 16);
    ByteValue(x % 16 * 16);
  }

  lemma IpV6Parts(n: Net, data: seq<Byte>)
    requires IsNet(n) && n.ipV6 && |data| < 0x10000
    ensures var s := IpBytes(n, |data|) + data;
      && |s| == 40 + |data| && s[0] == ToByte(0x60 + n.diffServ / 16 % 16)
      && s[1] == ToByte(n.diffServ % 16 * 16) && s[2] == 0 && s[3] == 0 && s[4..6] == Put16(|data|)
      && s[6] == 17 && s[7] == ToByte(n.timeToLive % 256)
      && s[8..24] == n.srcIp && s[24..40] == n.dstIp && s[40..40 + |data|] == data
  {
    var front := [ToByte(0x60 + n.diffServ / 16 % 16), ToByte(n.diffServ % 16 * 16), 0, 0];
    Parts6(front, Put16(|data|), [IP_PROTOCOL_UDP, ToByte(n.timeToLive % 256)], n.srcIp, n.dstIp,
           data);
    SmallModulo16(|data|);
    hide Put16, ToByte;
  }

  lemma SmallModulo16(x: nat)
    requires x < 0x10000
    ensures x % 0x10000 == x
  {
  }

  lemma Parts6(a: seq<Byte>, b: seq<Byte>, c: seq<Byte>, d: seq<Byte>, e: seq<Byte>, f: seq<Byte>)
    requires |a| == 4 && |b| == |c| == 2 && |d| == |e| == 16
    ensures var s := a + b + c + d + e + f;
      && s[..4] == a && s[4..6] == b && s[6..8] == c && s[8..24] == d && s[24..40] == e
      && s[40..40 + |f|] == f && s[0] == a[0] && s[1] == a[1] && s[2] == a[2] && s[3] == a[3]
      && s[6] == c[0] && s[7] == c[1]
  {
  }

  lemma IsUdp()
    ensures Value(17) == 17
  {
  }

  lemma ByteValue(x: int)
    requires 0 <= x < 256
    ensures Value(ToByte(x)) == x
  {
  }

  lemma NoFlowLabel(s: seq<Byte>)
    requires |s| >= 4 && s[2] == 0 && s[3] == 0
    ensures Get16(s[2..]) == 0
  {
  }

  lemma TrafficClass(x: int)
    ensures (0x60 + x / 16 % 16) / 16 == 6 && (0x60 + x / 16 % 16) % 16 == x / 16 % 16
    ensures (x % 16 * 16) / 16 == x % 16 && x % 16 * 16 % 16 == 0
    ensures x / 16 % 16 * 16 + x % 16 == x % 256
  {
  }

  lemma UdpIsRead(n: Net, payload: seq<Byte>, dstPortOffset: int)
    requires IsNet(n) && 8 + |payload| < 0x10000
    ensures ReadUdp(UdpBytes(n, 8 + |payload|, dstPortOffset) + payload)
         == Udp(n.srcPort, (n.dstPort + dstPortOffset) % 0x10000, 8 + |payload|, payload)
  {
    hide Get16, Put16;
    var s := UdpBytes(n, 8 + |payload|, dstPortOffset) + payload;
    assert s[0..2] == Put16(n.srcPort) && s[2..4] == Put16((n.dstPort + dstPortOffset) % 0x10000);
    assert s[4..6] == Put16(8 + |payload|) && s[8..8 + |payload|] == payload;
    Get16At(s, 0, n.srcPort);
    Get16At(s, 2, (n.dstPort + dstPortOffset) % 0x10000);
    Get16At(s, 4, 8 + |payload|);
    assert s[0..] == s;
  }

  // ---------------------------------------------------------------- A packet of the pipe

  /** The Ethernet frame in a packet of the pipe, where the card's header says it is. */
  function FrameIn(packet: seq<Byte>): seq<Byte>
    requires |packet| >= HEADER_SIZE
  {
    var size := Read(packet).header.frameSize;
    if 0 <= size <= |packet| - HEADER_SIZE then packet[HEADER_SIZE..HEADER_SIZE + size] else []
  }

  lemma FrameIsIn(n: Net, payload: seq<Byte>, dstPortOffset: int, todNs: nat)
    requires FitsNet(n, |payload|)
    ensures var udpLength := UDP_HEADER_SIZE + |payload|;
      FrameIn(PacketBytes(n, payload, dstPortOffset, todNs))
      == EthBytes(n) + (IpBytes(n, udpLength) + (UdpBytes(n, udpLength, dstPortOffset) + payload))
  {
    hide Read, EthBytes, IpBytes, UdpBytes, Write, HeaderOf, PacketSize, FitsNet, IsAligned, Unit;
    hide IsNet, HasVlan, Zeros;
    HeaderIsRead(n, payload, dstPortOffset, todNs);
    NetFacts(n, |payload|);
    SizeHasRoom(n, |payload|);
    SizeInHeader(n, |payload|, todNs);
    var udpLength := UDP_HEADER_SIZE + |payload|;
    InMiddle(Write(HeaderOf(n, |payload|, todNs)), EthBytes(n), IpBytes(n, udpLength),
             UdpBytes(n, udpLength, dstPortOffset), payload,
             Zeros(PacketSize(n, |payload|) - NetHeaderSize(n) - |payload|));
  }

  lemma SizeInHeader(n: Net, payloadSize: nat, todNs: nat)
    ensures HeaderOf(n, payloadSize, todNs).frameSize == NetHeaderSize(n) - HEADER_SIZE + payloadSize
  {
  }

  lemma InMiddle(w: seq<Byte>, e: seq<Byte>, i: seq<Byte>, u: seq<Byte>, payload: seq<Byte>,
                 zeros: seq<Byte>)
    ensures var s, frame := (w + e + i + u) + payload + zeros, e + (i + (u + payload));
      |w| + |frame| <= |s| && s[|w|..|w| + |frame|] == frame
  {
    var s, frame := (w + e + i + u) + payload + zeros, e + (i + (u + payload));
    assert s == w + frame + zeros;
  }

  /** The IP part of what a receiver has of a packet for a network. */
  predicate IsIpOf(ip: Ip, n: Net, udpLength: int) {
    if n.ipV6
    then ip == IpV6(n.diffServ % 256, 0, udpLength, 17, n.timeToLive % 256, n.srcIp, n.dstIp,
                    if ip.IpV6? then ip.data else [])
    else |n.srcIp| >= 4 && |n.dstIp| >= 4
         && ip == IpV4(n.diffServ % 256, 20 + udpLength, n.ipIdentification, false, false,
                       n.timeToLive % 256, 17, n.srcIp[..4], n.dstIp[..4],
                       if ip.IpV4? then ip.data else [])
  }

  /**
   * A receiver of the frame in a packet has the addresses, the tag, the lengths, the ports and the
   * payload that the packet was made with, in either version of IP.
   */
  lemma FrameIsRead(n: Net, payload: seq<Byte>, dstPortOffset: int, todNs: nat)
    requires FitsNet(n, |payload|)
    ensures var r := ReadFrame(FrameIn(PacketBytes(n, payload, dstPortOffset, todNs)));
      && r.eth == Eth(n.dstMac, n.srcMac,
                      if n.vlanId != 0 || n.vlanPriority != 0
                      then Tagged(n.vlanPriority % 8, false, n.vlanId % 0x1000) else Untagged,
                      if n.ipV6 then 0x86DD else 0x0800,
                      if r.eth.Eth? then r.eth.data else [])
      && IsIpOf(r.ip, n, 8 + |payload|)
      && r.udp == Udp(n.srcPort, (n.dstPort + dstPortOffset) % 0x10000, 8 + |payload|, payload)
  {
    hide EthBytes, IpBytes, UdpBytes, PacketBytes, FrameIn, ReadEth, ReadIpV4, ReadIpV6, ReadUdp;
    FrameIsIn(n, payload, dstPortOffset, todNs);
    LengthsFit(n, |payload|);
    hide FitsNet, IsNet;
    var udpLength := UDP_HEADER_SIZE + |payload|;
    var data := UdpBytes(n, udpLength, dstPortOffset) + payload;
    EthIsRead(n, IpBytes(n, udpLength) + data);
    UdpIsRead(n, payload, dstPortOffset);
    if n.ipV6 {
      IpV6IsRead(n, data);
    } else {
      IpV4IsRead(n, data);
    }
  }

  lemma LengthsFit(n: Net, payloadSize: nat)
    requires FitsNet(n, payloadSize)
    ensures IsNet(n) && 28 + payloadSize < 0x10000
  {
    SizeHasRoom(n, payloadSize);
  }

  /** In a packet the addresses are from one offset on and the ports from another. */
  predicate HasAddresses(s: seq<Byte>, n: Net, addresses: int, ports: int, dstPortOffset: int) {
    var size := if n.ipV6 then 16 else 4;
    && |n.srcIp| == |n.dstIp| == 16
    && 0 <= addresses && addresses + 2 * size <= ports && ports + 4 <= |s|
    && s[addresses..addresses + size] == n.srcIp[..size]
    && s[addresses + size..addresses + 2 * size] == n.dstIp[..size]
    && Get16(s[ports..]) == n.srcPort
    && Get16(s[ports + 2..]) == (n.dstPort + dstPortOffset) % 0x10000
  }

  /**
   * The card's header tells it where the frame's addresses and ports are, and when to send it:
   * to the nanosecond, as far as 32 bits of seconds go.
   */
  lemma HeaderPointsAtFrame(n: Net, payload: seq<Byte>, dstPortOffset: int, todNs: nat)
    requires FitsNet(n, |payload|)
    ensures var s := PacketBytes(n, payload, dstPortOffset, todNs);
      var h := Read(s).header;
      && Read(s).isValid && h.isVersion2 == n.isVersion2
      && h.timestampValid && h.packetType == (if n.ipV6 then 2 else 1) && h.isUdp == 1
      && h.subStream == 0 && h.numWords * 8 == |s|
      && h.portOffset + 8 + |payload| == HEADER_SIZE + h.frameSize <= |s|
      && HasAddresses(s, n, h.ipAddressOffset, h.portOffset, dstPortOffset)
      && h.seconds == todNs / 1_000_000_000 % 0x1_0000_0000
      && h.nanoseconds == todNs % 1_000_000_000
  {
    hide Read, IsNet, IsAligned, HeaderOf, FitsNet, PacketSize, NetHeaderSize, Unit, HasAddresses;
    hide NetHeaders, Zeros;
    HeaderIsRead(n, payload, dstPortOffset, todNs);
    NetFacts(n, |payload|);
    AddressesAreThere(n, payload, dstPortOffset, todNs);
    SizeHasRoom(n, |payload|);
    HeaderIs(n, |payload|, todNs);
  }

  lemma HeaderIs(n: Net, payloadSize: nat, todNs: nat)
    ensures var h := HeaderOf(n, payloadSize, todNs);
      && h.isVersion2 == n.isVersion2 && h.timestampValid
      && h.packetType == (if n.ipV6 then 2 else 1) && h.isUdp == 1 && h.subStream == 0
      && h.numWords * 8 == PacketSize(n, payloadSize)
      && h.ipAddressOffset
         == HEADER_SIZE + EthernetHeaderSize(n) + (if n.ipV6 then 8 else 12)
      && h.portOffset == NetHeaderSize(n) - 8
      && HEADER_SIZE + h.frameSize == NetHeaderSize(n) + payloadSize
      && h.seconds == todNs / 1_000_000_000 % 0x1_0000_0000
      && h.nanoseconds == todNs % 1_000_000_000
  {
    hide NumWords, HasVlan;
  }

  /** Behind the frame are zeros. */
  lemma PaddingIsZero(n: Net, payload: seq<Byte>, dstPortOffset: int, todNs: nat, j: nat)
    requires FitsNet(n, |payload|)
    requires NetHeaderSize(n) + |payload| <= j < |PacketBytes(n, payload, dstPortOffset, todNs)|
    ensures PacketBytes(n, payload, dstPortOffset, todNs)[j] == 0
  {
    hide Write, EthBytes, IpBytes, UdpBytes, HeaderOf, PacketSize, FitsNet, NetHeaderSize;
    NetFacts(n, |payload|);
    SizeHasRoom(n, |payload|);
  }

  lemma AddressesAreThere(n: Net, payload: seq<Byte>, dstPortOffset: int, todNs: nat)
    requires FitsNet(n, |payload|)
    ensures var s := PacketBytes(n, payload, dstPortOffset, todNs);
      var at := HEADER_SIZE + EthernetHeaderSize(n) + if n.ipV6 then 8 else 12;
      HasAddresses(s, n, at, NetHeaderSize(n) - 8, dstPortOffset)
  {
    hide Write, EthBytes, Put16, Get16, NumWords, HeaderOf, PacketSize, IsAligned, Unit;
    hide HasVlan, Zeros;
    LengthsFit(n, |payload|);
    SizeHasRoom(n, |payload|);
    var udpLength := UDP_HEADER_SIZE + |payload|;
    var w, e, i := Write(HeaderOf(n, |payload|, todNs)), EthBytes(n), IpBytes(n, udpLength);
    var u := UdpBytes(n, udpLength, dstPortOffset);
    var zeros := Zeros(PacketSize(n, |payload|) - NetHeaderSize(n) - |payload|);
    AddressesInIp(n, udpLength);
    PortsInUdp(n, udpLength, dstPortOffset);
    hide IpBytes, UdpBytes, FitsNet, IsNet, NetHeaderSize;
    var s := PacketBytes(n, payload, dstPortOffset, todNs);
    var size, from := if n.ipV6 then 16 else 4, if n.ipV6 then 8 else 12;
    var ip := |w| + |e|;
    assert s == (w + e + i + u) + payload + zeros;
    PartIsThere(w + e, i, u + payload + zeros, s, from, size);
    PartIsThere(w + e, i, u + payload + zeros, s, from + size, size);
    PartIsThere(w + e + i, u, payload + zeros, s, 0, 2);
    PartIsThere(w + e + i, u, payload + zeros, s, 2, 2);
    Get16At(s, |w| + |e| + |i|, n.srcPort);
    Get16At(s, |w| + |e| + |i| + 2, (n.dstPort + dstPortOffset) % 0x10000);
  }

  lemma AddressesInIp(n: Net, udpLength: nat)
    requires IsNet(n)
    ensures var i, size, at := IpBytes(n, udpLength), if n.ipV6 then 16 else 4,
                               if n.ipV6 then 8 else 12;
      && |n.srcIp| == |n.dstIp| == 16 && at + 2 * size == |i|
      && i[at..at + size] == n.srcIp[..size] && i[at + size..at + 2 * size] == n.dstIp[..size]
  {
    hide Put16;
  }

  lemma PortsInUdp(n: Net, udpLength: nat, dstPortOffset: int)
    requires IsNet(n)
    ensures var u := UdpBytes(n, udpLength, dstPortOffset);
      u[0..2] == Put16(n.srcPort) && u[2..4] == Put16((n.dstPort + dstPortOffset) % 0x10000)
  {
    hide Put16;
  }

  lemma PartIsThere(front: seq<Byte>, part: seq<Byte>, back: seq<Byte>, s: seq<Byte>, from: nat,
                    size: nat)
    requires s == front + part + back && from + size <= |part|
    ensures |front| + from + size <= |s|
    ensures s[|front| + from..|front| + from + size] == part[from..from + size]
  {
  }

  // ---------------------------------------------------------------- When it leaves

  /** A packet that leaves at a time, as far as 32 bits of seconds go, with an identification. */
  predicate Leaves(s: seq<Byte>, n: Net, todNs: nat, identification: int)
  {
    && |s| >= HEADER_SIZE && Parse(s).RxPacket?
    && Parse(s).todNs == todNs % (0x1_0000_0000 * 1_000_000_000)
    && var ip := ReadFrame(FrameIn(s)).ip;
       if n.ipV6 then ip.IpV6? else ip.IpV4? && ip.identification == identification
  }

  lemma PacketLeaves(n: Net, payload: seq<Byte>, todNs: nat)
    requires FitsNet(n, |payload|)
    ensures IsNet(n) && IsAligned(n.alignment)
    ensures Leaves(PacketBytes(n, payload, 0, todNs), n, todNs, n.ipIdentification)
  {
    hide Parse, ReadFrame, FrameIn, PacketBytes;
    PacketRoundTrip(n, payload, 0, todNs);
    FrameIsRead(n, payload, 0, todNs);
    SizeHasRoom(n, |payload|);
    HeldTodIs(todNs);
  }

  lemma HeldTodIs(todNs: nat)
    ensures HeldTod(todNs) == todNs % (0x1_0000_0000 * 1_000_000_000)
  {
  }

  lemma Counted(id: int, i: nat)
    requires i > 0
    ensures ((id + 1) % 0x10000 + (i - 1)) % 0x10000 == (id + i) % 0x10000
  {
  }
}
