// Source/Channel/DtAsiRx.c: scanning and delivering what a card receives over ASI.

module AsiRx {
  import opened AsiStream
  import opened Bytes
  import opened SharedRing

  datatype Result = Ok | DriverFails | BadOffset | OutOfMem | Internal

  /**
   * The receive side: a ring that the card fills, what a scan found in it, and what a
   * delivery left over. The ghosts: history is all that the card wrote, written how much of
   * it the write offset covers, told how far the card was told that it is read, accepted all
   * the output that scans counted, and taken all the output that reads delivered.
   */
  class AsiRx {
    const mode: Mode
    const reserve: nat
    const data: array<Byte>
    const pending: array<Byte>
    var readOffset: nat
    var writeOffset: nat
    var cardOffset: nat
    var outOfSync: bool
    var scannedBytes: nat
    var deliverableBytes: nat
    var readPosition: nat
    var skips: seq<Skip>
    var nextSkipIndex: nat
    var pendingPos: nat
    var pendingLen: nat
    var fifoOvf: bool

    ghost var history: seq<Byte>
    ghost var written: nat
    ghost var told: nat
    ghost var accepted: seq<Byte>
    ghost var taken: seq<Byte>

    ghost function Shared(): Ring
      reads this, data
    {
      Ring(data[..], reserve, history, told, told)
    }

    /** The offsets agree with what the card wrote and what was read of it. */
    ghost predicate IsRingValid()
      reads this, data
    {
      && data != pending && pending.Length == MAX_OUTPUT_BYTES
      && IsIntact(Shared()) && told <= readPosition <= readPosition + scannedBytes <= written
      && written <= |history|
      && readOffset == readPosition % data.Length && writeOffset == written % data.Length
      && cardOffset == |history| % data.Length
      && nextSkipIndex <= |skips| && pendingPos <= pendingLen <= MAX_OUTPUT_BYTES
    }

    /** What is scanned, from some bytes past the read offset on, is packets and skips. */
    ghost predicate IsScanned(from: nat)
      reads this
    {
      from <= scannedBytes && nextSkipIndex <= |skips|
      && IsWalk(mode, history, readPosition + from, readPosition + scannedBytes,
                skips[nextSkipIndex..])
    }

    ghost function ScanOutput(from: nat): seq<Byte>
      requires IsScanned(from)
      reads this
    {
      WalkOutput(mode, history, readPosition + from, readPosition + scannedBytes,
                 skips[nextSkipIndex..])
    }

    ghost function Pending(): seq<Byte>
      requires pendingPos <= pendingLen <= pending.Length
      reads this, pending
    {
      pending[pendingPos..pendingLen]
    }

    /** What has been counted and not been delivered. */
    ghost function Undelivered(): seq<Byte>
      requires IsRingValid() && IsScanned(0)
      reads this, data, pending
    {
      Pending() + ScanOutput(0)
    }

    /**
     * The count of what a read delivers is what it delivers, never more than the FIFO's size;
     * and all that was counted is what was taken, and this, in order.
     */
    ghost predicate Valid()
      reads this, data, pending
    {
      && IsRingValid() && IsScanned(0)
      && deliverableBytes == |Undelivered()| <= FIFO_SIZE
      && accepted == taken + Undelivered()
    }

    /** What a scan that goes on from here comes to. */
    ghost function ToScan(): Scan
      requires readPosition + scannedBytes <= written <= |history|
      reads this
    {
      ScanFrom(mode, history, written, readPosition + scannedBytes, outOfSync, deliverableBytes)
    }

    constructor (mode: Mode, size: nat, reserve: nat)
      requires 0 < reserve < size
      ensures Valid() && fresh(data) && fresh(pending) && history == accepted == taken == []
      ensures this.mode == mode && data.Length == size && this.reserve == reserve
    {
      this.mode, this.reserve := mode, reserve;
      data := new Byte[size];
      pending := new Byte[MAX_OUTPUT_BYTES];
      readOffset, writeOffset, cardOffset, outOfSync := 0, 0, 0, false;
      scannedBytes, deliverableBytes, readPosition, skips, nextSkipIndex := 0, 0, 0, [], 0;
      pendingPos, pendingLen, fifoOvf := 0, 0, false;
      history, written, told, accepted, taken := [], 0, 0, [], [];
    }

    /** The card writes on, in the room that it was told of. */
    method CardWrites(bytes: seq<Byte>)
      requires Valid() && |bytes| <= Room(Shared())
      modifies this`history, this`cardOffset, data
      ensures Valid() && history == old(history) + bytes
    {
      hide IsIntact, Room, OnlyAhead, BytesAhead, Holds, IsWalk, WalkOutput;
      ghost var was := Shared();
      RingFacts(was);
      StoreAround(data, cardOffset, bytes, |history|);
      Committed(was, data[..], bytes);
      OffsetMoves(|history|, |bytes|, data.Length, 1);
      cardOffset := (cardOffset + |bytes|) % data.Length;
      WalkOfMore(mode, history, history + bytes, readPosition, readPosition + scannedBytes,
                 skips[nextSkipIndex..]);
      history := history + bytes;
    }

    // Bytes some way past the read offset: in place, or in two parts.
    method Peek(offset: nat, length: nat) returns (bytes: seq<Byte>)
      requires IsRingValid() && readPosition + offset + length <= written
      ensures readPosition + offset + length <= |history|
      ensures bytes == history[readPosition + offset..readPosition + offset + length]
    {
      hide IsIntact, BytesAhead;
      Unread(Shared(), readPosition + offset, length);
      SliceIsAhead(data[..], readPosition, offset, length);
      var start := (readOffset + offset) % data.Length;
      var toEnd := data.Length - start;
      if length <= toEnd {
        bytes := data[start..start + length];
      } else {
        bytes := data[start..] + data[..length - toEnd];
      }
    }

    /** Gives scanned bytes back to the card; told follows when the driver takes the offset. */
    method AdvanceReadOffset(bytes: nat, status: Result) returns (result: Result)
      requires IsRingValid() && bytes <= scannedBytes
      modifies this`readOffset, this`scannedBytes, this`readPosition, this`skips,
               this`nextSkipIndex, this`told
      ensures IsRingValid() && readPosition == old(readPosition) + bytes
      ensures scannedBytes == old(scannedBytes) - bytes
      ensures skips[nextSkipIndex..] == old(skips[nextSkipIndex..])
      ensures result == if bytes == 0 then Ok else status
      ensures told == if bytes > 0 && status.Ok? then readPosition else old(told)
    {
      hide IsIntact;
      if bytes == 0 {
        return Ok;
      }
      RingFacts(Shared());
      OffsetMoves(readPosition, bytes, data.Length, 1);
      readOffset := (readOffset + bytes) % data.Length;
      scannedBytes := scannedBytes - bytes;
      readPosition := readPosition + bytes;
      if nextSkipIndex == |skips| {
        skips, nextSkipIndex := [], 0;
      }
      if status.Ok? {
        ReadIsThere(Shared(), readPosition, written);
        told := readPosition;
      }
      result := status;
    }

    /** Bytes that are scanned without being counted: what is to be delivered stays the same. */
    method SkipBytes(bytes: nat, hasMemory: bool) returns (result: Result)
      requires Valid() && bytes > 0 && readPosition + scannedBytes + bytes <= written
      modifies this`skips, this`scannedBytes
      ensures Valid() && Undelivered() == old(Undelivered())
      ensures result == Ok || (result == OutOfMem && !hasMemory)
      ensures scannedBytes == if result == Ok then old(scannedBytes) + bytes else old(scannedBytes)
    {
      hide IsIntact, IsWalk, WalkOutput, MoreSkipped;
      ghost var end, left := readPosition + scannedBytes, skips[nextSkipIndex..];
      WalkSkip(mode, history, readPosition, end, left, bytes);
      SkipsGrow(skips, nextSkipIndex, end, bytes);
      var position, count := readPosition + scannedBytes, |skips|;
      if count > nextSkipIndex && skips[count - 1].position + skips[count - 1].bytes == position {
        var last := skips[count - 1];
        skips := skips[..count - 1] + [Skip(last.position, last.bytes + bytes)];
      } else {
        if !hasMemory {
          return OutOfMem;
        }
        skips := skips + [Skip(position, bytes)];
      }
      scannedBytes := scannedBytes + bytes;
      result := Ok;
    }

    // The packet behind what was scanned, when the stream is in sync.
    method ScanPacket(hasMemory: bool) returns (result: Result)
      requires Valid() && !outOfSync && readPosition + scannedBytes + TRP_SIZE <= written
      modifies this`skips, this`scannedBytes, this`deliverableBytes, this`outOfSync, this`fifoOvf,
               this`accepted
      ensures Valid() && result in {Ok, OutOfMem} && (hasMemory ==> result == Ok)
      ensures var end := readPosition + old(scannedBytes);
        end + TRP_SIZE <= |history|
        && match Decode(mode, PacketAt(history, end))
           case NotInSync =>
             && outOfSync && fifoOvf == old(fifoOvf) && Undelivered() == old(Undelivered())
             && scannedBytes == old(scannedBytes) + if result == Ok then 1 else 0
           case Output(bytes) =>
             && !outOfSync
             && scannedBytes == old(scannedBytes) + (if result == Ok then TRP_SIZE else 0)
             && if old(deliverableBytes) + |bytes| > FIFO_SIZE
                then fifoOvf && Undelivered() == old(Undelivered())
                else fifoOvf == old(fifoOvf) && result == Ok
                     && Undelivered() == old(Undelivered()) + bytes
      ensures readPosition + scannedBytes <= written <= |history|
      ensures result == Ok ==>
                IsScannedTo(mode, history, readPosition + old(scannedBytes), old(deliverableBytes),
                            readPosition + scannedBytes, outOfSync, deliverableBytes,
                            old(Undelivered()), Undelivered(), old(fifoOvf), fifoOvf)
    {
      hide IsIntact, IsWalk, WalkOutput, Decode;
      ghost var end := readPosition + scannedBytes;
      var packet := Peek(scannedBytes, TRP_SIZE);
      assert packet == PacketAt(history, end);
      var decoded := Decode(mode, packet);
      result := Ok;
      if decoded == NotInSync {
        outOfSync := true;
        result := SkipBytes(1, hasMemory);
      } else if deliverableBytes + |decoded.bytes| > FIFO_SIZE {
        fifoOvf := true;
        result := SkipBytes(TRP_SIZE, hasMemory);
      } else {
        AcceptPacket(decoded.bytes);
      }
    }

    // Counts the output of a packet in sync.
    method AcceptPacket(bytes: seq<Byte>)
      requires Valid() && readPosition + scannedBytes + TRP_SIZE <= written
      requires readPosition + scannedBytes + TRP_SIZE <= |history|
      requires Decode(mode, PacketAt(history, readPosition + scannedBytes)) == Output(bytes)
      requires deliverableBytes + |bytes| <= FIFO_SIZE
      modifies this`scannedBytes, this`deliverableBytes, this`accepted
      ensures Valid() && Undelivered() == old(Undelivered()) + bytes
      ensures scannedBytes == old(scannedBytes) + TRP_SIZE
    {
      hide IsIntact, IsWalk, WalkOutput, Decode;
      ghost var end := readPosition + scannedBytes;
      WalkPacket(mode, history, readPosition, end, skips[nextSkipIndex..]);
      ghost var before := Undelivered();
      deliverableBytes := deliverableBytes + |bytes|;
      scannedBytes := scannedBytes + TRP_SIZE;
      accepted := accepted + bytes;
      assert Undelivered() == before + bytes;
    }

    // The search for the stream, when it is out of sync.
    method ScanSearch(available: nat, hasMemory: bool) returns (result: Result)
      requires Valid() && outOfSync && available == written - readPosition - scannedBytes
      requires available >= TRP_SIZE * NUM_SYNC
      modifies this`skips, this`scannedBytes, this`outOfSync
      ensures Valid() && result in {Ok, OutOfMem} && (hasMemory ==> result == Ok)
      ensures Undelivered() == old(Undelivered())
      ensures scannedBytes >= old(scannedBytes)
      ensures result == Ok ==> !outOfSync || scannedBytes > old(scannedBytes)
      ensures var size := SearchSize(available);
        var from := readPosition + old(scannedBytes);
        from + size <= |history|
        && match FindSync(mode.ts, history[from..from + size], 0)
           case Found(offset) =>
             && !outOfSync
             && scannedBytes == old(scannedBytes) + if result == Ok then offset else 0
           case NotFound =>
             && outOfSync
             && scannedBytes == old(scannedBytes)
                  + if result == Ok then size - TRP_SIZE * NUM_SYNC + 1 else 0
    {
      hide IsIntact, IsWalk, WalkOutput, AsiStream.IsRun;
      var size := SearchSize(available);
      var buffer := Peek(scannedBytes, size);
      var found := FindSync(mode.ts, buffer, 0);
      hide FindSync;
      result := Ok;
      var offset;
      if found.Found? {
        outOfSync := false;
        offset := found.offset;
      } else {
        offset := size - TRP_SIZE * NUM_SYNC + 1;
      }
      if offset > 0 {
        result := SkipBytes(offset, hasMemory);
      }
    }

    // The packet that comes next, in sync.
    method PacketStep(hasMemory: bool) returns (result: Result)
      requires Valid() && !outOfSync && readPosition + scannedBytes + TRP_SIZE <= written
      modifies this`skips, this`scannedBytes, this`deliverableBytes, this`outOfSync, this`fifoOvf,
               this`accepted
      ensures Valid() && result in {Ok, OutOfMem} && (hasMemory ==> result == Ok)
      ensures old(Undelivered()) <= Undelivered()
      ensures scannedBytes >= old(scannedBytes) && readPosition + scannedBytes <= written
      ensures result == Ok ==> scannedBytes > old(scannedBytes)
      ensures result == Ok ==>
                IsGoingOn(old(ToScan()), ToScan(), old(Undelivered()), Undelivered(),
                          old(fifoOvf), fifoOvf)
    {
      hide IsIntact, IsWalk, WalkOutput, Decode, FindSync, ScanFrom, PacketAt, IsGoingOn;
      hide IsRingValid, IsScanned, Undelivered, IsScannedTo;
      ghost var at, count, before, hadOvf := readPosition + scannedBytes, deliverableBytes,
                                             Undelivered(), fifoOvf;
      result := ScanPacket(hasMemory);
      if result == Ok {
        PacketGoesOn(mode, history, written, at, count, readPosition + scannedBytes, outOfSync,
                     deliverableBytes, before, Undelivered(), hadOvf, fifoOvf);
      }
    }

    // The search that comes next, out of sync.
    method SearchStep(available: nat, hasMemory: bool) returns (result: Result)
      requires Valid() && outOfSync && available == written - readPosition - scannedBytes
      requires available >= TRP_SIZE * NUM_SYNC
      modifies this`skips, this`scannedBytes, this`outOfSync
      ensures Valid() && result in {Ok, OutOfMem} && (hasMemory ==> result == Ok)
      ensures Undelivered() == old(Undelivered()) && readPosition + scannedBytes <= written
      ensures scannedBytes >= old(scannedBytes)
      ensures result == Ok ==> !outOfSync || scannedBytes > old(scannedBytes)
      ensures result == Ok ==>
                IsGoingOn(old(ToScan()), ToScan(), old(Undelivered()), Undelivered(),
                          old(fifoOvf), fifoOvf)
    {
      hide IsIntact, IsWalk, WalkOutput, Decode, FindSync, ScanFrom, PacketAt, SearchSize;
      ghost var at := readPosition + scannedBytes;
      result := ScanSearch(available, hasMemory);
      if result == Ok {
        SearchGoesOn(mode, history, written, at, deliverableBytes, readPosition + scannedBytes,
                     outOfSync);
      }
    }

    // One step of a scan; it ends when too little is left to go on with.
    method ScanStep(hasMemory: bool) returns (result: Result, isMore: bool)
      requires Valid()
      modifies this`skips, this`scannedBytes, this`deliverableBytes, this`outOfSync, this`fifoOvf,
               this`accepted
      ensures Valid() && result in {Ok, OutOfMem} && (hasMemory ==> result == Ok)
      ensures old(Undelivered()) <= Undelivered() && taken == old(taken)
      ensures scannedBytes >= old(scannedBytes) && readPosition + scannedBytes <= written
      ensures !isMore ==>
        scannedBytes == old(scannedBytes) && result == Ok && outOfSync == old(outOfSync)
                          && written - readPosition - scannedBytes < TRP_SIZE * NUM_SYNC
      ensures isMore && result == Ok ==>
                scannedBytes > old(scannedBytes) || (old(outOfSync) && !outOfSync)
      ensures result == Ok ==>
                IsGoingOn(old(ToScan()), ToScan(), old(Undelivered()), Undelivered(),
                          old(fifoOvf), fifoOvf)
      ensures !isMore ==>
                ToScan() == Scan(readPosition + scannedBytes, outOfSync, [], false)
    {
      ScanUnfolds(mode, history, written, readPosition + scannedBytes, outOfSync, deliverableBytes);
      hide IsIntact, IsWalk, WalkOutput, Decode, FindSync, ScanFrom, PacketAt;
      var available := Available();
      result, isMore := Ok, true;
      if !outOfSync {
        if available < TRP_SIZE {
          return Ok, false;
        }
        result := PacketStep(hasMemory);
      } else {
        if available < TRP_SIZE * NUM_SYNC {
          return Ok, false;
        }
        result := SearchStep(available, hasMemory);
      }
    }

    // The bytes past what was scanned.
    method Available() returns (n: nat)
      requires IsRingValid()
      ensures n == written - readPosition - scannedBytes
    {
      Unread(Shared(), readPosition, written - readPosition);
      LoadBytesIsLoad(readPosition, written, data.Length);
      n := LoadBytes(writeOffset, readOffset, data.Length) - scannedBytes;
    }

    /**
     * Scans up to seen, where the card was when it was asked, and counts what ScanFrom counts.
     * What was to be delivered still is, first, and what the scan counts comes behind it.
     */
    method ScanBuffer(status: Result, reported: nat, setStatus: Result, memory: nat -> bool,
                      ghost seen: nat) returns (result: Result)
      requires Valid() && written <= seen <= |history| && !status.Internal? && !setStatus.Internal?
      requires status.Ok? && reported < data.Length ==> reported == seen % data.Length
      modifies this`writeOffset, this`written, this`skips, this`scannedBytes, this`fifoOvf
      modifies this`deliverableBytes, this`outOfSync, this`accepted, this`readOffset
      modifies this`readPosition, this`nextSkipIndex, this`told
      ensures Valid() && !result.Internal?
      ensures old(Undelivered()) <= Undelivered() && taken == old(taken)
      ensures result == Ok ==>
        var scan := ScanFrom(mode, history, seen, old(readPosition + scannedBytes),
                             old(outOfSync), old(deliverableBytes));
        && Undelivered() == old(Undelivered()) + scan.output
        && readPosition + scannedBytes == scan.pos && outOfSync == scan.outOfSync
        && fifoOvf == (old(fifoOvf) || scan.isOverflow)
      ensures result == Ok ==> written - readPosition - scannedBytes < TRP_SIZE * NUM_SYNC
      ensures result == Ok && status.Ok? ==> written == seen
      ensures result == Ok && deliverableBytes == 0 ==> scannedBytes == 0
    {
      hide IsIntact, IsWalk, WalkOutput;
      if !status.Ok? {
        return status;
      }
      if reported >= data.Length {
        return BadOffset;
      }
      writeOffset, written := reported, seen;
      result := ScanAll(memory);
      if result == Ok && deliverableBytes == 0 {
        result := ReleaseScanned(setStatus);
      }
    }

    // The steps of a scan.
    method ScanAll(memory: nat -> bool) returns (result: Result)
      requires Valid()
      modifies this`skips, this`scannedBytes, this`deliverableBytes, this`outOfSync, this`fifoOvf,
               this`accepted
      ensures Valid() && result in {Ok, OutOfMem}
      ensures old(Undelivered()) <= Undelivered()
      ensures result == Ok ==> written - readPosition - scannedBytes < TRP_SIZE * NUM_SYNC
      ensures result == Ok ==>
                && readPosition + scannedBytes == old(ToScan()).pos
                && outOfSync == old(ToScan()).outOfSync
                && Undelivered() == old(Undelivered()) + old(ToScan()).output
                && fifoOvf == (old(fifoOvf) || old(ToScan()).isOverflow)
    {
      hide IsIntact, IsWalk, WalkOutput, ScanFrom;
      ghost var before, scan, hasOvf := Undelivered(), ToScan(), fifoOvf;
      var isMore, i := true, 0;
      result := Ok;
      while isMore && result == Ok
        invariant Valid() && i >= 0 && readPosition + scannedBytes <= written
        invariant before <= Undelivered() && result in {Ok, OutOfMem}
        invariant !isMore ==> written - readPosition - scannedBytes < TRP_SIZE * NUM_SYNC
        invariant result == Ok ==>
          IsGoingOn(scan, ToScan(), before, Undelivered(), hasOvf, fifoOvf)
        invariant !isMore ==>
          ToScan() == Scan(readPosition + scannedBytes, outOfSync, [], false)
        decreases if isMore && result == Ok then 1 else 0, written - readPosition - scannedBytes,
                  if outOfSync then 1 else 0
      {
        result, isMore := ScanStep(memory(i));
        i := i + 1;
      }
      assert Undelivered() + [] == Undelivered();
    }

    // The read offset catches up with the scan, which left nothing to read.
    method ReleaseScanned(setStatus: Result) returns (result: Result)
      requires Valid() && deliverableBytes == 0
      modifies this`readOffset, this`scannedBytes, this`readPosition, this`skips,
               this`nextSkipIndex, this`told
      ensures Valid() && Undelivered() == old(Undelivered()) && scannedBytes == 0
      ensures readPosition == old(readPosition) + old(scannedBytes)
      ensures result == if old(scannedBytes) == 0 then Ok else setStatus
    {
      hide IsIntact, IsWalk, WalkOutput;
      nextSkipIndex := |skips|;
      result := AdvanceReadOffset(scannedBytes, setStatus);
      EmptyWalk(mode, history, readPosition, skips[nextSkipIndex..]);
    }

    // What is left over from a packet decoded, as far as there is room for it.
    method CopyPending(out: array<Byte>, done: nat, size: nat) returns (n: nat)
      requires pendingPos < pendingLen <= pending.Length && done < size <= out.Length
      requires out != pending
      modifies this`pendingPos, out
      ensures 0 < n <= size - done && pendingPos <= pendingLen
      ensures out[..done + n] + Pending() == old(out[..done]) + old(Pending())
    {
      hide Stored;
      ghost var was, left := out[..], Pending();
      n := pendingLen - pendingPos;
      if n > size - done {
        n := size - done;
      }
      var part := pending[pendingPos..pendingPos + n];
      Store(out, done, part);
      StoredPrefix(was, out[..], done, part, part);
      pendingPos := pendingPos + n;
      assert left == part + Pending();
      assert was[..done] == old(out[..done]);
    }

    // A packet decoded into the caller's buffer when that has room for the largest, and else
    // into the place for what is left over.
    method DeliverPacket(out: array<Byte>, done: nat, size: nat, packet: seq<Byte>)
      returns (n: nat)
      requires |packet| == TRP_SIZE && Decode(mode, packet).Output?
      requires pendingPos == pendingLen <= pending.Length == MAX_OUTPUT_BYTES
      requires done < size <= out.Length && out != pending
      modifies this`pendingPos, this`pendingLen, out, pending
      ensures n <= size - done && pendingPos <= pendingLen <= MAX_OUTPUT_BYTES
      ensures out[..done + n] + Pending() == old(out[..done]) + Decode(mode, packet).bytes
    {
      hide Decode, Stored;
      ghost var was := out[..];
      n := 0;
      var bytes := Decode(mode, packet).bytes;
      if size - done >= MAX_OUTPUT_BYTES {
        Store(out, done, bytes);
        StoredPrefix(was, out[..], done, bytes, bytes);
        n := |bytes|;
        assert Pending() == [];
      } else if |bytes| > 0 {
        ghost var empty := pending[..];
        Store(pending, 0, bytes);
        StoredPrefix(empty, pending[..], 0, bytes, bytes);
        pendingPos, pendingLen := 0, |bytes|;
        assert Pending() == bytes;
      }
      assert was[..done] == old(out[..done]);
    }

    // A delivery under way: what is out, what is left over and what the packets not yet
    // consumed decode to is all there was.
    ghost predicate IsDelivering(out: array<Byte>, done: nat, consumed: nat, all: seq<Byte>)
      reads this, data, pending, out
    {
      && IsRingValid() && IsScanned(consumed) && done <= out.Length
      && out[..done] + (Pending() + ScanOutput(consumed)) == all
    }

    // One step of a delivery.
    method DeliverStep(out: array<Byte>, done: nat, size: nat, consumed: nat,
                       ghost all: seq<Byte>)
      returns (n: nat, used: nat)
      requires out != data && out != pending && done < size <= out.Length && size <= |all|
      requires IsDelivering(out, done, consumed, all)
      modifies this`pendingPos, this`pendingLen, this`nextSkipIndex, out, pending
      ensures n <= size - done
      ensures IsDelivering(out, done + n, consumed + used, all)
      ensures used > 0 || pendingLen - pendingPos < old(pendingLen - pendingPos)
    {
      hide IsIntact, IsWalk, WalkOutput, Decode;
      n, used := 0, 0;
      ghost var pos, end, left := readPosition + consumed, readPosition + scannedBytes,
                                  skips[nextSkipIndex..];
      ghost var output := ScanOutput(consumed);
      if pendingPos < pendingLen {
        ghost var was, kept := out[..done], Pending();
        n := CopyPending(out, done, size);
        Regroup(was, kept, out[..done + n], Pending(), output);
        return;
      }
      WalkUnfolds(mode, history, pos, end, left);
      if nextSkipIndex < |skips| && skips[nextSkipIndex].position == readPosition + consumed {
        used := skips[nextSkipIndex].bytes;
        nextSkipIndex := nextSkipIndex + 1;
        assert left[1..] == skips[nextSkipIndex..];
        return;
      }
      if consumed + TRP_SIZE > scannedBytes {
        assert false; // The source's other internal error.
      }
      var packet := Peek(consumed, TRP_SIZE);
      ghost var was, bytes := out[..done], Decode(mode, packet).bytes;
      n := DeliverPacket(out, done, size, packet);
      used := TRP_SIZE;
      Regroup(was, bytes, out[..done + n], Pending(), ScanOutput(consumed + used));
    }

    /**
     * A read of size bytes: the first of what was counted, in order. The internal error is
     * for asking more than was counted, and for nothing else.
     */
    method DeliverBytes(out: array<Byte>, size: nat, setStatus: Result) returns (result: Result)
      requires Valid() && size <= out.Length && out != data && out != pending
      requires !setStatus.Internal?
      modifies this`readOffset, this`scannedBytes, this`readPosition, this`skips, this`told
      modifies this`nextSkipIndex, this`pendingPos, this`pendingLen, this`deliverableBytes
      modifies this`taken, out, pending
      ensures Valid() && accepted == old(accepted)
      ensures result == Internal <==> size > old(deliverableBytes)
      ensures if result == Internal then Undelivered() == old(Undelivered()) && taken == old(taken)
              else && old(Undelivered()) == out[..size] + Undelivered()
                   && taken == old(taken) + out[..size]
                   && deliverableBytes == old(deliverableBytes) - size
    {
      hide IsIntact, IsWalk, WalkOutput;
      if size > deliverableBytes {
        return Internal;
      }
      ghost var all := Undelivered();
      DeliveryBegins(out);
      hide IsDelivering, IsRingValid, IsScanned, Valid, Undelivered;
      var consumed := DeliverAll(out, size, all);
      result := EndDelivery(out, size, consumed, setStatus, all);
    }

    // The steps of a delivery.
    method DeliverAll(out: array<Byte>, size: nat, ghost all: seq<Byte>) returns (consumed: nat)
      requires out != data && out != pending && size <= out.Length && size <= |all|
      requires IsDelivering(out, 0, 0, all)
      modifies this`pendingPos, this`pendingLen, this`nextSkipIndex, out, pending
      ensures IsDelivering(out, size, consumed, all)
    {
      hide IsDelivering;
      var done: nat := 0;
      consumed := 0;
      while done < size
        invariant done <= size && IsDelivering(out, done, consumed, all)
        decreases scannedBytes - consumed, pendingLen - pendingPos
      {
        DeliveryIsBounded(out, done, consumed, all);
        var n, used := DeliverStep(out, done, size, consumed, all);
        DeliveryIsBounded(out, done + n, consumed + used, all);
        done, consumed := done + n, consumed + used;
      }
    }

    lemma DeliveryBegins(out: array<Byte>)
      requires Valid()
      ensures IsDelivering(out, 0, 0, Undelivered())
      ensures deliverableBytes == |Undelivered()| <= FIFO_SIZE && accepted == taken + Undelivered()
    {
      hide IsIntact, IsWalk, WalkOutput;
    }

    lemma DeliveryIsBounded(out: array<Byte>, done: nat, consumed: nat, all: seq<Byte>)
      requires IsDelivering(out, done, consumed, all)
      ensures consumed <= scannedBytes && pendingPos <= pendingLen
    {
    }

    // The delivery done: what was consumed is given back to the card.
    method EndDelivery(out: array<Byte>, size: nat, consumed: nat, setStatus: Result,
                       ghost all: seq<Byte>) returns (result: Result)
      requires IsDelivering(out, size, consumed, all) && |all| == deliverableBytes <= FIFO_SIZE
      requires accepted == taken + all && !setStatus.Internal?
      modifies this`readOffset, this`scannedBytes, this`readPosition, this`skips, this`told
      modifies this`nextSkipIndex, this`deliverableBytes, this`taken
      ensures Valid() && !result.Internal?
      ensures all == out[..size] + Undelivered() && taken == old(taken) + out[..size]
      ensures deliverableBytes == old(deliverableBytes) - size
    {
      hide IsIntact, IsWalk, WalkOutput;
      ghost var left := Pending() + ScanOutput(consumed);
      deliverableBytes := deliverableBytes - size;
      result := AdvanceReadOffset(consumed, setStatus);
      assert Undelivered() == left;
      assert taken + (out[..size] + left) == taken + out[..size] + left;
      taken := taken + out[..size];
    }

    /** Starts anew: nothing written, nothing scanned, nothing to deliver. */
    method ResetScan()
      requires Valid()
      modifies this
      ensures Valid() && accepted == taken == history == [] && deliverableBytes == 0 && !outOfSync
    {
      RingFacts(Shared());
      readOffset, writeOffset, cardOffset := 0, 0, 0;
      history, written, told, accepted, taken := [], 0, 0, [], [];
      ForgetScan();
    }

    method ForgetScan()
      modifies this`scannedBytes, this`deliverableBytes, this`readPosition, this`skips,
               this`nextSkipIndex, this`pendingPos, this`pendingLen, this`outOfSync
      ensures scannedBytes == deliverableBytes == readPosition == nextSkipIndex == 0
      ensures pendingPos == pendingLen == 0 && skips == [] && !outOfSync
    {
      scannedBytes, deliverableBytes, readPosition, skips, nextSkipIndex := 0, 0, 0, [], 0;
      pendingPos, pendingLen, outOfSync := 0, 0, false;
    }
  }

  lemma Regroup(a: seq<Byte>, b: seq<Byte>, c: seq<Byte>, d: seq<Byte>, rest: seq<Byte>)
    requires a + b == c + d
    ensures a + (b + rest) == c + (d + rest)
  {
    assert a + (b + rest) == (a + b) + rest;
    assert c + (d + rest) == (c + d) + rest;
  }

  // What comes next in a walk: the end, a skip or a packet.
  lemma WalkUnfolds(mode: Mode, stream: seq<Byte>, pos: nat, end: nat, skips: seq<Skip>)
    requires IsWalk(mode, stream, pos, end, skips) && pos <= end <= |stream|
    ensures var output := WalkOutput(mode, stream, pos, end, skips);
      if pos == end then output == []
      else if skips != [] && skips[0].position == pos then
        && pos + skips[0].bytes <= end && skips[0].bytes > 0
        && IsWalk(mode, stream, pos + skips[0].bytes, end, skips[1..])
        && output == WalkOutput(mode, stream, pos + skips[0].bytes, end, skips[1..])
      else
        && pos + TRP_SIZE <= end && Decode(mode, PacketAt(stream, pos)).Output?
        && IsWalk(mode, stream, pos + TRP_SIZE, end, skips)
        && output == Decode(mode, PacketAt(stream, pos)).bytes
                     + WalkOutput(mode, stream, pos + TRP_SIZE, end, skips)
  {
    hide Decode;
  }

  lemma EmptyWalk(mode: Mode, stream: seq<Byte>, pos: nat, skips: seq<Skip>)
    requires skips == []
    ensures IsWalk(mode, stream, pos, pos, skips) && WalkOutput(mode, stream, pos, pos, skips) == []
  {
  }

  // Passing over more, as the vector of skips and its part yet to be used show it.
  lemma SkipsGrow(skips: seq<Skip>, next: nat, end: nat, bytes: nat)
    requires next <= |skips|
    ensures var count := |skips|;
      if count > next && skips[count - 1].position + skips[count - 1].bytes == end
      then (skips[..count - 1]
            + [Skip(skips[count - 1].position, skips[count - 1].bytes + bytes)])[next..]
           == MoreSkipped(skips[next..], end, bytes)
      else (skips + [Skip(end, bytes)])[next..] == MoreSkipped(skips[next..], end, bytes)
  {
  }

  // A slice of the ring, in one piece or around its end.
  lemma SliceIsAhead(data: seq<Byte>, position: nat, offset: nat, length: nat)
    requires 0 < |data| && length <= |data|
    ensures var start := (position % |data| + offset) % |data|;
      start < |data|
      && BytesAhead(data, position + offset, length)
         == if length <= |data| - start then data[start..start + length]
            else data[start..] + data[..length - (|data| - start)]
  {
    hide BytesAhead;
    OffsetMoves(position, offset, |data|, 1);
    if length <= |data| - (position + offset) % |data| {
      AheadInOnePiece(data, position + offset, length);
    } else {
      AheadInTwoPieces(data, position + offset, length);
    }
  }
}
