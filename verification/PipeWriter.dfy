// Source/AvFifo/DtAvPipe.c, transmission: packets into the shared buffer of a pipe.

module PipeWriter {
  import opened Bytes
  import opened SharedRing

  const FLUSH_EVERY_PACKETS: nat := 100

  /** The packets not flushed and the first failure, after one packet more. */
  function AfterCommit(unflushed: nat, failure: Result, status: Result): (nat, Result) {
    if unflushed + 1 < FLUSH_EVERY_PACKETS then (unflushed + 1, failure)
    else (0, if failure != Ok then failure else status)
  }

  /** The first failure of the automatic flushes of packets, by what the driver says of each. */
  ghost function FirstFailure(driver: nat -> Result, count: nat): Result {
    if count == 0 then Ok
    else if FirstFailure(driver, count - 1) != Ok then FirstFailure(driver, count - 1)
    else if count % FLUSH_EVERY_PACKETS == 0 then driver(count - 1) else Ok
  }

  lemma FlushesGoOn(driver: nat -> Result, count: nat)
    ensures AfterCommit(count % FLUSH_EVERY_PACKETS, FirstFailure(driver, count), driver(count))
         == ((count + 1) % FLUSH_EVERY_PACKETS, FirstFailure(driver, count + 1))
  {
  }

  datatype Result = Ok | DriverFails | BadOffset | InvalidFormat

  /**
   * A transmit pipe and its writer. The card reads the buffer at its own pace and keeps two
   * offsets: readOffset, up to where it has read, and toldOffset, up to where it may. The
   * ghosts history, told and read record what was committed, up to where the card was told of
   * it, and up to where it has read.
   */
  class Writer {
    const word: nat
    const data: array<Byte>
    const wrapPacket: array<Byte>
    var offset: nat
    var readOffset: nat
    var toldOffset: nat
    var isInWrapPacket: bool
    var unflushedPackets: nat
    var firstFlushFailure: Result

    ghost var history: seq<Byte>
    ghost var told: nat
    ghost var read: nat

    ghost function Shared(): Ring
      reads this, data
    {
      Ring(data[..], word, history, read, told)
    }

    /** The offsets agree with what was committed, and are whole data words. */
    ghost predicate Valid()
      reads this, data
    {
      && data != wrapPacket && wrapPacket.Length == MAX_PACKET
      && IsIntact(Shared())
      && offset == |history| % data.Length && AreRegisters()
      && data.Length % word == 0 && |history| % word == 0
      && unflushedPackets < FLUSH_EVERY_PACKETS
    }

    ghost predicate AreRegisters()
      requires data.Length > 0
      reads this
    {
      readOffset == read % data.Length && toldOffset == told % data.Length
    }

    /** So many packets were written since the last flush asked for. */
    ghost predicate HasFlushed(driver: nat -> Result, count: nat)
      reads this`unflushedPackets, this`firstFlushFailure
    {
      && unflushedPackets == count % FLUSH_EVERY_PACKETS
      && firstFlushFailure == FirstFailure(driver, count)
    }

    /** No flush has failed since the last one asked for, and none is due. */
    ghost predicate IsTold()
      reads this`firstFlushFailure, this`unflushedPackets, this`told, this`history
    {
      firstFlushFailure == Ok && (unflushedPackets == 0 ==> told == |history|)
    }

    constructor (size: nat, word: nat)
      requires 0 < word < size && size % word == 0
      ensures Valid() && fresh(data) && fresh(wrapPacket)
      ensures data.Length == size && this.word == word
      ensures history == [] && told == read == 0
    {
      this.word := word;
      data := new Byte[size];
      wrapPacket := new Byte[MAX_PACKET];
      offset, isInWrapPacket, unflushedPackets, firstFlushFailure := 0, false, 0, Ok;
      readOffset, toldOffset := 0, 0;
      history, told, read := [], 0, 0;
    }

    /**
     * The card reads on, at any time and as far as it likes of what it was told of: what it
     * reads is what was committed.
     */
    method CardTakes(count: nat) returns (bytes: seq<Byte>)
      requires Valid()
      modifies this`read, this`readOffset
      ensures Valid() && old(read) <= read == old(read) + |bytes| && |bytes| <= count
      ensures read == told || |bytes| == count
      ensures bytes == history[old(read)..read]
      ensures Room(Shared()) == old(Room(Shared())) + |bytes|
    {
      hide IsIntact, Room, BytesAhead, LoadBytes, Ahead;
      LoadToTold(Shared());
      var load := LoadBytes(toldOffset, readOffset, data.Length);
      var taken := if count <= load then count else load;
      CardReads(Shared(), taken);
      bytes := BytesAhead(data[..], readOffset, taken);
      SameAhead(data[..], read, taken);
      OffsetMoves(read, taken, data.Length, 1);
      readOffset := (readOffset + taken) % data.Length;
      read := read + taken;
    }

    /** How many bytes can be written now, by the read offset that the driver reports. */
    method GetFreeBytes(status: Result, reported: nat) returns (result: Result, free: nat)
      requires Valid()
      requires status.Ok? && reported < data.Length ==> reported == readOffset
      ensures result == if !status.Ok? then status
                        else if reported >= data.Length then BadOffset else Ok
      ensures free == if result.Ok? then Room(Shared()) else 0
    {
      free := 0;
      if !status.Ok? {
        return status, 0;
      }
      if reported >= data.Length {
        return BadOffset, 0;
      }
      FreeBytesIsRoom(Shared());
      free := FreeBytes(reported, offset, data.Length, word);
      result := Ok;
    }

    /** Where the next packet goes, of at most maxSize bytes. */
    method ReserveRoom(maxSize: nat) returns (room: array<Byte>, at: nat)
      requires Valid() && maxSize <= MAX_PACKET
      modifies this`isInWrapPacket
      ensures Valid() && at + maxSize <= room.Length
      ensures isInWrapPacket == (data.Length - offset < maxSize)
      ensures if isInWrapPacket then room == wrapPacket && at == 0
              else room == data && at == offset
    {
      isInWrapPacket := data.Length - offset < maxSize;
      if isInWrapPacket {
        room, at := wrapPacket, 0;
      } else {
        room, at := data, offset;
      }
    }

    /** What is in the room reserved. */
    ghost function RoomBytes(size: nat): seq<Byte>
      requires if isInWrapPacket then size <= wrapPacket.Length else offset + size <= data.Length
      reads this, data, wrapPacket
    {
      if isInWrapPacket then wrapPacket[..size] else data[offset..offset + size]
    }

    /** Tells the driver how far the writer is. */
    method Flush(status: Result) returns (result: Result)
      requires Valid()
      modifies this`told, this`toldOffset, this`unflushedPackets, this`firstFlushFailure
      ensures Valid() && unflushedPackets == 0 && firstFlushFailure == Ok
      ensures told == if status.Ok? && old(unflushedPackets) > 0 then |history| else old(told)
      ensures result == if old(firstFlushFailure) != Ok || old(unflushedPackets) == 0
                        then old(firstFlushFailure) else status
      ensures status.Ok? && old(IsTold()) ==> IsTold() && told == |history| && result == Ok
    {
      result := SetWriteOffset(status);
    }

    // The flush itself, which a commit also makes.
    method SetWriteOffset(status: Result) returns (result: Result)
      requires IsIntact(Shared()) && AreRegisters() && offset == |history| % data.Length
      modifies this`told, this`toldOffset, this`unflushedPackets, this`firstFlushFailure
      ensures IsIntact(Shared()) && AreRegisters() && unflushedPackets == 0 && firstFlushFailure == Ok
      ensures told == if status.Ok? && old(unflushedPackets) > 0 then |history| else old(told)
      ensures result == if old(firstFlushFailure) != Ok || old(unflushedPackets) == 0
                        then old(firstFlushFailure) else status
    {
      result := firstFlushFailure;
      firstFlushFailure := Ok;
      if unflushedPackets == 0 {
        return;
      }
      unflushedPackets := 0;
      if status.Ok? {
        told, toldOffset := |history|, offset;
      }
      if result == Ok {
        result := status;
      }
    }

    /** The packet in the room is the card's to read, in one piece or around the end. */
    method CommitPacket(size: nat, status: Result)
      requires Valid() && size <= Room(Shared()) && size % word == 0
      requires if isInWrapPacket then size <= wrapPacket.Length else offset + size <= data.Length
      modifies this`offset, this`unflushedPackets, this`firstFlushFailure, this`history,
               this`told, this`toldOffset, data
      ensures Valid() && read == old(read)
      ensures history == old(history) + old(RoomBytes(size))
      ensures old(unflushedPackets) + 1 < FLUSH_EVERY_PACKETS ==>
                unflushedPackets == old(unflushedPackets) + 1 && told == old(told)
      ensures old(unflushedPackets) + 1 == FLUSH_EVERY_PACKETS ==>
                unflushedPackets == 0 && (status.Ok? ==> told == |history|)
      ensures Room(Shared()) == old(Room(Shared())) - size
      ensures status.Ok? && old(IsTold()) ==> IsTold()
      ensures (unflushedPackets, firstFlushFailure)
           == AfterCommit(old(unflushedPackets), old(firstFlushFailure), status)
    {
      hide IsIntact, Room, BytesAhead, OnlyAhead, Holds;
      ghost var was, packet := Shared(), RoomBytes(size);
      RingFacts(was);
      OffsetMoves(|history|, size, data.Length, word);
      if isInWrapPacket {
        StoreAround(data, offset, wrapPacket[..size], |history|);
      } else {
        InPlaceAhead(was.data, |history|, packet);
      }
      Committed(was, data[..], packet);
      hide IsRing;
      offset := (offset + size) % data.Length;
      history := history + packet;
      unflushedPackets := unflushedPackets + 1;
      if unflushedPackets >= FLUSH_EVERY_PACKETS {
        SetAutomatically(status);
      }
    }

    // An automatic flush keeps its failure for the next one asked for.
    method SetAutomatically(status: Result)
      requires IsIntact(Shared()) && AreRegisters() && offset == |history| % data.Length
      modifies this`told, this`toldOffset, this`unflushedPackets, this`firstFlushFailure
      ensures IsIntact(Shared()) && AreRegisters() && unflushedPackets == 0
      ensures Room(Shared()) == old(Room(Shared()))
      ensures status.Ok? && old(unflushedPackets) > 0 ==> told == |history|
      ensures firstFlushFailure == if old(firstFlushFailure) != Ok || old(unflushedPackets) == 0
                                   then old(firstFlushFailure) else status
    {
      var result := SetWriteOffset(status);
      if firstFlushFailure == Ok {
        firstFlushFailure := result;
      }
    }
  }
}
