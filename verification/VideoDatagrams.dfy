// Source/AvFifo/DtSt2110Video.c, transmission: a frame's packets in the pipe, and when they leave.

module VideoDatagrams {
  import opened Arithmetic
  import opened Bytes
  import opened EthIp
  import opened Headers
  import opened NetPackets
  import opened NetReceiver
  import opened TxStreams
  import opened VideoPackets
  import opened VideoSafety
  import MediaTime
  import PipeReader
  import SharedRing

  /** The bytes of packets in the pipe, one after the other. */
  ghost function Datagrams(n: Net, sent: seq<Sent>, firstTodNs: int, offsetPs: nat,
                           spacingPs: nat): seq<Byte>
    requires IsNet(n) && IsAligned(n.alignment) && HavePayloads(sent)
    decreases |sent|
  {
    if sent == [] then []
    else
      RestHasPayloads(sent);
      PacketBytes(n, Payload(sent[0].packet), 0, TodOf(firstTodNs, offsetPs))
      + Datagrams(AfterPacket(n), sent[1..], firstTodNs, NextOffset(offsetPs, spacingPs), spacingPs)
  }

  /** Packets with payloads of so many bytes at most. */
  ghost predicate AreBelow(sent: seq<Sent>, max: nat)
    requires HavePayloads(sent)
  {
    forall i | 0 <= i < |sent| :: PayloadFits(sent[i].packet, max)
  }

  predicate PayloadFits(x: Packet, max: nat) {
    0 <= x.seqNum < W32 && RtpFits(RtpOf(x)) && |Payload(x)| <= max
  }

  // ---------------------------------------------------------------- One packet

  /** The network and its pipe have room for payloads of so many bytes. */
  predicate HasRoom(n: Net, max: nat) {
    FitsNet(n, max) && PacketSize(n, max) <= SharedRing.MAX_PACKET
  }

  // The reader finds a packet that is at the start of what it reads.
  lemma PacketIsFound(n: Net, payload: seq<Byte>, todNs: nat, rest: seq<Byte>)
    requires HasRoom(n, |payload|)
    ensures IsNet(n) && IsAligned(n.alignment)
    ensures var s := PacketBytes(n, payload, 0, todNs);
      && PipeReader.HasPacket(s + rest) && PipeReader.SizeOf(s + rest) == |s|
      && (s + rest)[..|s|] == s && (s + rest)[|s|..] == rest
  {
    var s := PacketBytes(n, payload, 0, todNs);
    HeaderIsRead(n, payload, 0, todNs);
    SizeHasRoom(n, |payload|);
    PipeReader.HeaderOnly(s, rest);
    hide Read, PacketBytes, NumWords;
  }

  lemma FewerFit(n: Net, size: nat, max: nat)
    requires HasRoom(n, max) && size <= max
    ensures HasRoom(n, size)
  {
    SizeGrows(n, size, max);
  }

  // ---------------------------------------------------------------- All packets of a frame

  /** A pipe holds packets that leave one spacing after the other, and are numbered one by one. */
  ghost predicate LeaveInTurn(bytes: seq<Byte>, n: Net, count: nat, firstTodNs: int, offset: nat,
                              spacingPs: nat) {
    var found := PipeReader.Packets(bytes);
    && |found| == count && PipeReader.Rest(bytes) == []
    && forall i | 0 <= i < count ::
         Leaves(found[i], n,
                (firstTodNs + (offset + i * spacingPs) % 0x1_0000_0000_0000_0000 / 1000)
                % 0x1_0000_0000_0000_0000,
                (n.ipIdentification + i) % 0x10000)
  }

  lemma {:induction false} DatagramsLeave(n: Net, sent: seq<Sent>, firstTodNs: int, offset: nat,
                                          spacing: nat, max: nat)
    requires HavePayloads(sent) && AreBelow(sent, max) && HasRoom(n, max) && offset < W64
    ensures IsNet(n) && IsAligned(n.alignment)
    ensures LeaveInTurn(Datagrams(n, sent, firstTodNs, offset, spacing), n, |sent|, firstTodNs,
                        offset, spacing)
    decreases |sent|
  {
    hide PacketBytes, Payload, HavePayloads, RtpFits, RtpOf, Leaves, FitsNet, LeaveInTurn;
    hide TodOf, NextOffset, PacketSize, IsNet, IsAligned;
    NetFacts(n, max);
    if sent == [] {
      NoneLeave(n, firstTodNs, offset, spacing);
    } else {
      RestHasPayloads(sent);
      var x, next := sent[0].packet, NextOffset(offset, spacing);
      assert PayloadFits(x, max);
      FewerFit(n, |Payload(x)|, max);
      RoomAfter(n, max);
      NextOffsetIs(offset, 1, spacing);
      DatagramsLeave(AfterPacket(n), sent[1..], firstTodNs, next, spacing, max);
      hide AreBelow, HasRoom, PayloadFits;
      OneMoreLeaves(n, Payload(x), Datagrams(AfterPacket(n), sent[1..], firstTodNs, next, spacing),
                    |sent| - 1, firstTodNs, offset, spacing);
    }
  }

  lemma RoomAfter(n: Net, max: nat)
    requires HasRoom(n, max)
    ensures HasRoom(AfterPacket(n), max)
  {
    assert PacketSize(AfterPacket(n), max) == PacketSize(n, max);
  }

  lemma NoneLeave(n: Net, firstTodNs: int, offset: nat, spacing: nat)
    ensures LeaveInTurn([], n, 0, firstTodNs, offset, spacing)
  {
    NothingIsFound();
  }

  lemma OneMoreLeaves(n: Net, payload: seq<Byte>, rest: seq<Byte>, count: nat, firstTodNs: int,
                      offset: nat, spacing: nat)
    requires HasRoom(n, |payload|) && IsNet(n) && IsAligned(n.alignment) && offset < W64
    requires LeaveInTurn(rest, AfterPacket(n), count, firstTodNs, NextOffset(offset, spacing),
                         spacing)
    ensures LeaveInTurn(PacketBytes(n, payload, 0, TodOf(firstTodNs, offset)) + rest, n, count + 1,
                        firstTodNs, offset, spacing)
  {
    hide PacketBytes, HasRoom, PipeReader.HasPacket, PipeReader.SizeOf, IsNet, IsAligned;
    hide NextOffset, Leaves, FitsNet;
    var todNs := TodOf(firstTodNs, offset);
    var s := PacketBytes(n, payload, 0, todNs);
    PacketIsFound(n, payload, todNs, rest);
    PipeReader.PacketsUnfold(s + rest);
    RoomFits(n, |payload|);
    PacketLeaves(n, payload, todNs);
    var found, others := PipeReader.Packets(s + rest), PipeReader.Packets(rest);
    assert found == [s] + others;
    forall i | 0 <= i < count + 1
      ensures Leaves(found[i], n, (firstTodNs + (offset + i * spacing) % W64 / 1000) % W64,
                     (n.ipIdentification + i) % 0x10000)
    {
      if i == 0 {
        SmallModulo64(offset);
        IsItself(n.ipIdentification, n, |payload|);
      } else {
        NextOffsetIs(offset, i, spacing);
        assert found[i] == others[i - 1];
        LeavesLater(n, found[i], (firstTodNs + (offset + i * spacing) % W64 / 1000) % W64, i);
      }
    }
  }

  lemma RoomFits(n: Net, size: nat)
    requires HasRoom(n, size)
    ensures FitsNet(n, size)
  {
  }

  lemma IsItself(id: int, n: Net, size: nat)
    requires FitsNet(n, size) && id == n.ipIdentification
    ensures id % 0x10000 == id
  {
  }

  lemma LeavesLater(n: Net, s: seq<Byte>, todNs: nat, i: nat)
    requires i > 0 && Leaves(s, AfterPacket(n), todNs,
                             (AfterPacket(n).ipIdentification + (i - 1)) % 0x10000)
    ensures Leaves(s, n, todNs, (n.ipIdentification + i) % 0x10000)
  {
    hide Parse, ReadFrame, FrameIn;
    Counted(n.ipIdentification, i);
  }

  lemma NothingIsFound()
    ensures PipeReader.Packets([]) == [] && PipeReader.Rest([]) == []
  {
    PipeReader.TooShort([]);
    PipeReader.PacketsUnfold([]);
  }
}
