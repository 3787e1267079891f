// Source/AvFifo/DtAvStream.h and DtAvPacket.c: the headers of the packets of a stream.

module TxStreams {
  import opened Arithmetic
  import opened Bytes
  import opened EthIp
  import opened NetPackets

  /** The address part after a packet: the identification of the next IPv4 packet. */
  function AfterPacket(n: Net): Net {
    if n.ipV6 then n else n.(ipIdentification := (n.ipIdentification + 1) % 0x10000)
  }

  function AfterPackets(n: Net, count: nat): Net
    decreases count
  {
    if count == 0 then n else AfterPackets(AfterPacket(n), count - 1)
  }

  /** When a packet is to go out, some picoseconds after the first. */
  function TodOf(firstTodNs: int, offsetPs: nat): nat {
    (firstTodNs + offsetPs / PS_PER_NS) % W64
  }

  function NextOffset(offsetPs: nat, spacingPs: nat): nat {
    (offsetPs + spacingPs) % W64
  }

  lemma NextOffsetIs(offset: nat, i: nat, spacing: nat)
    requires i > 0 && offset < W64
    ensures (NextOffset(offset, spacing) + (i - 1) * spacing) % W64 == (offset + i * spacing) % W64
    ensures NextOffset(offset, spacing) < W64
  {
    ModAdd64(offset + spacing, (i - 1) * spacing);
    assert i * spacing == spacing + (i - 1) * spacing;
  }

  lemma ModAdd64(a: int, b: int)
    ensures (a % W64 + b) % W64 == (a + b) % W64
  {
  }

  lemma SmallModulo64(x: nat)
    requires x < W64
    ensures x % W64 == x
  {
  }

  /** What every packet of a stream has in common, and the number of the next one. */
  class TxStream {
    var net: Net
    const payloadType: int
    const ssrc: int
    const outputDelayNs: int
    var nextSequenceNumber: nat

    constructor (net: Net, payloadType: int, ssrc: int, outputDelayNs: int)
      ensures this.net == net && this.payloadType == payloadType && this.ssrc == ssrc
      ensures this.outputDelayNs == outputDelayNs && nextSequenceNumber == 0
    {
      this.net, this.payloadType, this.ssrc := net, payloadType, ssrc;
      this.outputDelayNs, nextSequenceNumber := outputDelayNs, 0;
    }

    /** Writes the headers in front of a payload that is in place, and the padding behind it. */
    method WriteHeaders(packet: array<Byte>, at: nat, payloadSize: nat, dstPortOffset: int,
                        todNs: nat) returns (size: nat)
      requires IsNet(net) && IsAligned(net.alignment)
      requires at + PacketSize(net, payloadSize) <= packet.Length
      requires at + NetHeaderSize(net) + payloadSize <= packet.Length
      modifies this`net, packet
      ensures size == PacketSize(old(net), payloadSize) && net == AfterPacket(old(net))
      ensures var payload :=
          old(packet[at + NetHeaderSize(net)..at + NetHeaderSize(net) + payloadSize]);
        Stored(old(packet[..]), packet[..], at, PacketBytes(old(net), payload, dstPortOffset, todNs))
    {
      hide NetHeaders, PacketSize, Stored, IsNet, IsAligned, HeaderOf, Write, EthBytes, IpBytes;
      hide UdpBytes, NumWords, Zeros;
      SizeHasRoom(net, payloadSize);
      ghost var n, s0 := net, packet[..];
      ghost var payload := packet[at + NetHeaderSize(net)..at + NetHeaderSize(net) + payloadSize];
      var udpLength := UDP_HEADER_SIZE + payloadSize;
      var eth := at + HEADER_SIZE;
      var ip := eth + EthernetHeaderSize(net);
      var udp := ip + IpHeaderSize(net);
      var used := NetHeaderSize(net) + payloadSize;
      size := PacketSize(net, payloadSize);
      Store(packet, eth, EthBytes(net));
      ghost var s1 := packet[..];
      Store(packet, ip, IpBytes(net, udpLength));
      ghost var s2 := packet[..];
      Store(packet, udp, UdpBytes(net, udpLength, dstPortOffset));
      ghost var s3 := packet[..];
      Store(packet, at, Write(HeaderOf(net, payloadSize, todNs)));
      ghost var s4 := packet[..];
      Store(packet, at + used, Zeros(size - used));
      HeadersAreStored(n, payload, dstPortOffset, todNs, at, s0, s1, s2, s3, s4, packet[..]);
      net := AfterPacket(net);
    }
  }

  // The stores of the headers, put together.
  lemma HeadersAreStored(n: Net, payload: seq<Byte>, dstPortOffset: int, todNs: nat, at: nat,
                         s0: seq<Byte>, s1: seq<Byte>, s2: seq<Byte>, s3: seq<Byte>,
                         s4: seq<Byte>, s5: seq<Byte>)
    requires IsNet(n) && IsAligned(n.alignment)
    requires at + NetHeaderSize(n) + |payload| <= |s0|
    requires payload == s0[at + NetHeaderSize(n)..at + NetHeaderSize(n) + |payload|]
    requires Stored(s0, s1, at + HEADER_SIZE, EthBytes(n))
    requires Stored(s1, s2, at + HEADER_SIZE + EthernetHeaderSize(n),
                    IpBytes(n, UDP_HEADER_SIZE + |payload|))
    requires Stored(s2, s3, at + HEADER_SIZE + EthernetHeaderSize(n) + IpHeaderSize(n),
                    UdpBytes(n, UDP_HEADER_SIZE + |payload|, dstPortOffset))
    requires Stored(s3, s4, at, Write(HeaderOf(n, |payload|, todNs)))
    requires PacketSize(n, |payload|) >= NetHeaderSize(n) + |payload|
    requires Stored(s4, s5, at + NetHeaderSize(n) + |payload|,
                    Zeros(PacketSize(n, |payload|) - NetHeaderSize(n) - |payload|))
    ensures Stored(s0, s5, at, PacketBytes(n, payload, dstPortOffset, todNs))
  {
    hide PacketSize, Stored, IsNet, IsAligned, HeaderOf, Write, EthBytes, IpBytes, UdpBytes;
    hide NumWords, Zeros;
    var udpLength := UDP_HEADER_SIZE + |payload|;
    var eth, ip, udp := EthBytes(n), IpBytes(n, udpLength), UdpBytes(n, udpLength, dstPortOffset);
    var header := Write(HeaderOf(n, |payload|, todNs));
    var zeros := Zeros(PacketSize(n, |payload|) - NetHeaderSize(n) - |payload|);
    StoredBehind(s0, s1, s2, at + HEADER_SIZE, eth, ip);
    StoredBehind(s0, s2, s3, at + HEADER_SIZE, eth + ip, udp);
    StoredInFront(s0, s3, s4, at, header, eth + ip + udp);
    var headers := header + (eth + ip + udp);
    assert NetHeaders(n, |payload|, dstPortOffset, todNs) == headers;
    AroundPayload(s0, s4, s5, at, headers, payload, zeros);
  }

  lemma AroundPayload(s0: seq<Byte>, s4: seq<Byte>, s5: seq<Byte>, at: nat, headers: seq<Byte>,
                      payload: seq<Byte>, zeros: seq<Byte>)
    requires Stored(s0, s4, at, headers) && at + |headers| + |payload| <= |s0|
    requires payload == s0[at + |headers|..at + |headers| + |payload|]
    requires Stored(s4, s5, at + |headers| + |payload|, zeros)
    ensures Stored(s0, s5, at, headers + payload + zeros)
  {
    StoredSuffix(s0, s4, at, headers, at + |headers|);
    assert s4[at + |headers|..at + |headers| + |payload|]
        == s4[at + |headers|..][..|payload|] == s0[at + |headers|..][..|payload|] == payload;
    assert Stored(s4, s4, at + |headers|, payload);
    hide Stored;
    StoredBehind(s0, s4, s4, at, headers, payload);
    StoredBehind(s0, s4, s5, at, headers + payload, zeros);
  }
}
