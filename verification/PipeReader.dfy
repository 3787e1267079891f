// Source/AvFifo/DtAvPipe.c, reception: the packets in the shared buffer of a pipe.

module PipeReader {
  import opened Bytes
  import opened EthIp
  import opened SharedRing

  datatype Result = Ok | DriverFails | BadOffset

  // ---------------------------------------------------------------- Packets of a byte stream

  /** The size of the packet at the start of s, as its header gives it. */
  function SizeOf(s: seq<Byte>): (n: nat)
    requires |s| >= HEADER_SIZE
  {
    Read(s).header.numWords * WORD_SIZE
  }

  /** The header at the start of s is one of a packet that a pipe holds. */
  predicate IsHeader(s: seq<Byte>) {
    |s| >= HEADER_SIZE && Read(s).isValid && HEADER_SIZE <= SizeOf(s) <= MAX_PACKET
  }

  /** A whole packet is at the start of s. */
  predicate HasPacket(s: seq<Byte>) {
    IsHeader(s) && SizeOf(s) <= |s|
  }

  /** There is a header at the start of s, and it is not one of a packet. */
  predicate IsLost(s: seq<Byte>) {
    |s| >= HEADER_SIZE && !IsHeader(s)
  }

  /** The packets that s starts with. */
  function Packets(s: seq<Byte>): seq<seq<Byte>>
    decreases |s|
  {
    if !HasPacket(s) then [] else [s[..SizeOf(s)]] + Packets(s[SizeOf(s)..])
  }

  /** What follows the packets that s starts with. */
  function Rest(s: seq<Byte>): (rest: seq<Byte>)
    ensures |rest| <= |s|
    decreases |s|
  {
    if !HasPacket(s) then s else Rest(s[SizeOf(s)..])
  }

  /** A header is read from its own bytes, whatever follows. */
  lemma HeaderOnly(a: seq<Byte>, b: seq<Byte>)
    requires |a| >= HEADER_SIZE
    ensures Read(a + b) == Read(a) && SizeOf(a + b) == SizeOf(a) && IsHeader(a + b) == IsHeader(a)
  {
    hide ReadLe, ExtractBits;
    assert (a + b)[..8] == a[..8] && (a + b)[8..16] == a[8..16];
  }

  lemma PacketIsIn(s: seq<Byte>)
    requires HasPacket(s)
    ensures 0 < SizeOf(s) <= |s| && |s| >= HEADER_SIZE
  {
    hide Read;
  }

  /** Packets are found alike wherever the stream is cut, as long as the reader is in sync. */
  lemma {:induction false} PacketsOfMore(a: seq<Byte>, b: seq<Byte>)
    requires !IsLost(Rest(a))
    ensures Packets(a + b) == Packets(a) + Packets(Rest(a) + b)
    ensures Rest(a + b) == Rest(Rest(a) + b)
    decreases |a|
  {
    hide Read, SizeOf, IsHeader;
    if HasPacket(a) {
      PacketIsIn(a);
      HeaderOnly(a, b);
      var n := SizeOf(a);
      PacketsOfMore(a[n..], b);
      assert (a + b)[..n] == a[..n] && (a + b)[n..] == a[n..] + b;
    }
  }

  /** Once lost, the reader stays lost. */
  lemma {:induction false} LostIsLost(a: seq<Byte>, b: seq<Byte>)
    requires IsLost(Rest(a))
    ensures Packets(a + b) == Packets(a) && IsLost(Rest(a + b))
    decreases |a|
  {
    hide Read;
    HeaderOnly(a, b);
    if HasPacket(a) {
      var n := SizeOf(a);
      LostIsLost(a[n..], b);
      assert (a + b)[..n] == a[..n] && (a + b)[n..] == a[n..] + b;
    }
  }

  lemma {:induction false} RestIsSuffix(s: seq<Byte>)
    ensures |Rest(s)| <= |s| && s[|s| - |Rest(s)|..] == Rest(s)
    decreases |s|
  {
    hide Read;
    if HasPacket(s) {
      PacketIsIn(s);
      RestIsSuffix(s[SizeOf(s)..]);
    }
  }

  /**
   * Passes add up: reading on from what a pass left of the first a bytes gives the packets
   * that reading the first b bytes at once gives, and leaves the same.
   */
  lemma PassesAddUp(stream: seq<Byte>, a: nat, b: nat)
    requires a <= b <= |stream| && !IsLost(Rest(stream[..a]))
    ensures var read := a - |Rest(stream[..a])|;
      && 0 <= read
      && Packets(stream[..b]) == Packets(stream[..a]) + Packets(stream[read..b])
      && Rest(stream[..b]) == Rest(stream[read..b])
  {
    hide IsLost, Packets, Rest;
    var rest := Rest(stream[..a]);
    RestIsSuffix(stream[..a]);
    PacketsOfMore(stream[..a], stream[a..b]);
    assert stream[..b] == stream[..a] + stream[a..b];
    assert stream[a - |rest|..b] == rest + stream[a..b];
  }

  // The packets of a stream are those in front of what follows them.
  lemma {:induction false} PacketsInFront(s: seq<Byte>)
    ensures var front := s[..|s| - |Rest(s)|];
      Packets(front) == Packets(s) && Rest(front) == []
    decreases |s|
  {
    hide Read, SizeOf, IsHeader;
    var front := s[..|s| - |Rest(s)|];
    if HasPacket(s) {
      PacketsUnfold(s);
      var n := SizeOf(s);
      PacketsInFront(s[n..]);
      RestIsSuffix(s[n..]);
      assert s == front + Rest(s) by {
        RestIsSuffix(s);
      }
      HeaderOnly(front, Rest(s));
      assert front[..n] == s[..n] && front[n..] == s[n..][..|s[n..]| - |Rest(s[n..])|];
    } else {
      NoPackets();
      assert front == [];
    }
  }

  lemma NoPackets()
    ensures Packets([]) == [] && Rest([]) == []
  {
    hide Read;
  }

  /**
   * What has been handed over: what was before the reader last took up the stream, and every
   * packet from there on, each once and in order, with nothing read in part.
   */
  ghost predicate IsHanded(handed: seq<seq<Byte>>, before: seq<seq<Byte>>, history: seq<Byte>,
                           base: nat, read: nat) {
    && base <= read <= |history|
    && handed == before + Packets(history[base..read]) && Rest(history[base..read]) == []
  }

  /** The card's writing on changes nothing of it. */
  lemma StillHanded(handed: seq<seq<Byte>>, before: seq<seq<Byte>>, history: seq<Byte>,
                    base: nat, read: nat, bytes: seq<Byte>)
    requires IsHanded(handed, before, history, base, read)
    ensures IsHanded(handed, before, history + bytes, base, read)
  {
    hide Packets, Rest;
    assert (history + bytes)[base..read] == history[base..read];
  }

  /** The packets of the next pass go on where those of the passes before ended. */
  lemma MoreHanded(handed: seq<seq<Byte>>, before: seq<seq<Byte>>, history: seq<Byte>, base: nat,
                   read: nat, seen: nat)
    requires IsHanded(handed, before, history, base, read) && read <= seen <= |history|
    ensures var unread := history[read..seen];
      IsHanded(handed + Packets(unread), before, history, base, seen - |Rest(unread)|)
      && Packets(history[base..seen]) == Packets(history[base..read]) + Packets(unread)
      && Rest(history[base..seen]) == Rest(unread)
  {
    hide Packets, Rest;
    var done, unread := history[base..read], history[read..seen];
    InSync();
    PacketsOfMore(done, unread);
    assert history[base..seen] == done + unread && [] + unread == unread;
    var all := history[base..seen];
    PacketsInFront(all);
    assert all[..|all| - |Rest(all)|] == history[base..seen - |Rest(unread)|];
    Append(before, Packets(done), Packets(unread));
  }

  lemma InSync()
    ensures !IsLost([])
  {
  }

  // Taking up the stream anew.
  lemma HandedAnew(handed: seq<seq<Byte>>, history: seq<Byte>, base: nat)
    requires base <= |history|
    ensures IsHanded(handed, handed, history, base, base)
  {
    NoPackets();
    assert history[base..base] == [];
    assert handed + [] == handed;
  }

  /**
   * A reader that took up a stream at its start, of which the card has written a part, does
   * not lose it, when the whole stream is packets.
   */
  lemma StaysInSync(stream: seq<Byte>, handed: seq<seq<Byte>>, history: seq<Byte>, read: nat,
                    seen: nat)
    requires IsHanded(handed, [], history, 0, read) && read <= seen <= |history|
    requires history <= stream && Rest(stream) == []
    ensures !IsLost(Rest(history[read..seen]))
  {
    hide Packets, Rest, IsLost;
    MoreHanded(handed, [], history, 0, read, seen);
    assert history[..seen] == history[0..seen];
    assert stream == history[..seen] + stream[seen..];
    if IsLost(Rest(history[..seen])) {
      LostIsLost(history[..seen], stream[seen..]);
      InSync();
    }
  }

  // ---------------------------------------------------------------- The reader

  /** The offset of a position in the stream. */
  function OffsetOf(position: nat, size: nat): nat
    requires size > 0
  {
    position % size
  }

  lemma LoadIsSmall(r: Ring, from: nat, to: nat)
    requires IsIntact(r) && r.read <= from <= to <= |r.history|
    ensures 0 < |r.data| && to < from + |r.data|
  {
  }

  // The first packet of what is unread, and the others.
  lemma PacketsUnfold(s: seq<Byte>)
    ensures HasPacket(s) ==> HEADER_SIZE <= SizeOf(s) <= |s|
    ensures if HasPacket(s)
            then Packets(s) == [s[..SizeOf(s)]] + Packets(s[SizeOf(s)..])
                 && Rest(s) == Rest(s[SizeOf(s)..])
            else Packets(s) == [] && Rest(s) == s
  {
    hide Read;
  }

  /** Handing over is done up to s. */
  ghost predicate IsHanding(done: seq<seq<Byte>>, s: seq<Byte>, unread: seq<Byte>) {
    done + Packets(s) == Packets(unread) && Rest(s) == Rest(unread)
  }

  lemma HandingBegins(unread: seq<Byte>)
    ensures IsHanding([], unread, unread)
  {
    hide Packets, Rest;
  }

  lemma HandingGoesOn(done: seq<seq<Byte>>, s: seq<Byte>, unread: seq<Byte>)
    requires IsHanding(done, s, unread)
    ensures HasPacket(s) ==>
      SizeOf(s) <= |s| && IsHanding(done + [s[..SizeOf(s)]], s[SizeOf(s)..], unread)
    ensures !HasPacket(s) ==> done == Packets(unread) && Rest(unread) == s
  {
    hide HasPacket, Packets, Rest, SizeOf;
    PacketsUnfold(s);
    if HasPacket(s) {
      var first, others := [s[..SizeOf(s)]], Packets(s[SizeOf(s)..]);
      assert done + first + others == done + (first + others);
    }
  }

  lemma SliceOfSlice(s: seq<Byte>, from: nat, to: nat, n: nat)
    requires from + n <= to <= |s|
    ensures s[from..to][n..] == s[from + n..to]
  {
  }

  lemma Append(a: seq<seq<Byte>>, b: seq<seq<Byte>>, c: seq<seq<Byte>>)
    ensures a + b + c == a + (b + c)
  {
  }

  lemma TooShort(s: seq<Byte>)
    requires |s| < HEADER_SIZE
    ensures !HasPacket(s) && !IsLost(s)
  {
  }

  lemma FromHeader(s: seq<Byte>, header: seq<Byte>)
    requires |header| == HEADER_SIZE && header <= s
    ensures IsHeader(header) == IsHeader(s) && SizeOf(header) == SizeOf(s)
    ensures IsHeader(header) ==> HEADER_SIZE <= SizeOf(header) <= MAX_PACKET
  {
    hide Read;
    assert s == header + s[HEADER_SIZE..];
    HeaderOnly(header, s[HEADER_SIZE..]);
  }

  /**
   * A receive pipe and its reader, and the function packets are handed to. The card writes
   * behind what it wrote before; history, read and told are ghosts that record all it wrote,
   * up to where the host has read, and up to where the card was told of it. base is where the
   * reader last took up the stream, and before what it had handed over by then.
   */
  class Reader {
    const word: nat
    const data: array<Byte>
    const wrapPacket: array<Byte>
    var offset: nat
    var cardOffset: nat
    var handed: seq<seq<Byte>>

    ghost var history: seq<Byte>
    ghost var read: nat
    ghost var told: nat
    ghost var base: nat
    ghost var before: seq<seq<Byte>>

    ghost function Shared(): Ring
      reads this`history, this`told, data
    {
      Ring(data[..], word, history, told, told)
    }

    ghost predicate Valid()
      reads this, data
    {
      IsSharing() && IsHanded(handed, before, history, base, read)
    }

    /** The offsets are those of what was written and read. */
    ghost predicate IsSharing()
      reads this`offset, this`cardOffset, this`history, this`read, this`told, data
    {
      && data != wrapPacket && wrapPacket.Length == MAX_PACKET
      && IsIntact(Shared()) && told <= read <= |history|
      && offset == read % data.Length && cardOffset == |history| % data.Length
    }

    constructor (size: nat, word: nat)
      requires 0 < word < size
      ensures Valid() && fresh(data) && fresh(wrapPacket)
      ensures data.Length == size && this.word == word
      ensures history == [] && told == read == base == 0 && handed == before == []
    {
      this.word := word;
      data := new Byte[size];
      wrapPacket := new Byte[MAX_PACKET];
      offset, cardOffset, handed := 0, 0, [];
      history, told, read, base, before := [], 0, 0, 0, [];
      new;
      HandedAnew([], [], 0);
    }

    /** The card writes on, as far as it was told that there is room. */
    method CardWrites(bytes: seq<Byte>)
      requires Valid() && |bytes| <= Room(Shared())
      modifies this`history, this`cardOffset, data
      ensures Valid() && history == old(history) + bytes
    {
      hide IsIntact, Room, OnlyAhead, BytesAhead, Holds, IsHanded;
      StillHanded(handed, before, history, base, read, bytes);
      ghost var was := Shared();
      RingFacts(was);
      StoreAround(data, cardOffset, bytes, |history|);
      Committed(was, data[..], bytes);
      OffsetMoves(|history|, |bytes|, data.Length, 1);
      cardOffset := (cardOffset + |bytes|) % data.Length;
      history := history + bytes;
    }

    /** Bytes that may go around the end, as a range of one array. */
    method PacketInOnePiece(at: nat, size: nat, ghost position: nat)
      returns (packet: array<Byte>, start: nat)
      requires 0 < data.Length && data != wrapPacket && size <= wrapPacket.Length
      requires at == position % data.Length && size <= data.Length
      modifies wrapPacket
      ensures start + size <= packet.Length && packet in {data, wrapPacket}
      ensures packet[start..start + size] == BytesAhead(data[..], position, size)
    {
      hide BytesAhead;
      var bytesToEnd := data.Length - at;
      if bytesToEnd >= size {
        AheadInOnePiece(data[..], position, size);
        return data, at;
      }
      AheadInTwoPieces(data[..], position, size);
      Store(wrapPacket, 0, data[at..]);
      ghost var half := wrapPacket[..];
      Store(wrapPacket, bytesToEnd, data[..size - bytesToEnd]);
      assert wrapPacket[..bytesToEnd] == half[..bytesToEnd];
      assert wrapPacket[..size] == wrapPacket[..bytesToEnd] + wrapPacket[bytesToEnd..size];
      return wrapPacket, 0;
    }

    // The packet at an offset, if all of it is there; size is 0 when there is none.
    method NextPacket(at: nat, load: nat, ghost position: nat, ghost seen: nat)
      returns (size: nat, isLost: bool, next: nat)
      requires IsSharing() && read <= position <= seen <= |history| && load == seen - position
      requires at == OffsetOf(position, data.Length) && load >= HEADER_SIZE
      modifies this`handed, wrapPacket
      ensures IsSharing() && next == OffsetOf(position + size, data.Length)
      ensures var s := history[position..seen];
        if HasPacket(s) then size == SizeOf(s) && !isLost && handed == old(handed) + [s[..size]]
        else size == 0 && isLost == IsLost(s) && handed == old(handed)
    {
      hide IsIntact, Room, BytesAhead, Read, SizeOf, IsHeader;
      ghost var s := history[position..seen];
      LoadIsSmall(Shared(), position, seen);
      Unread(Shared(), position, HEADER_SIZE);
      var header, start := PacketInOnePiece(at, HEADER_SIZE, position);
      FromHeader(s, header[start..start + HEADER_SIZE]);
      if !IsHeader(header[start..start + HEADER_SIZE]) {
        return 0, true, at;
      }
      size := SizeOf(header[start..start + HEADER_SIZE]);
      if load < size {
        return 0, false, at;
      }
      Unread(Shared(), position, size);
      var packet, from := PacketInOnePiece(at, size, position);
      assert s[..size] == history[position..position + size];
      handed := handed + [packet[from..from + size]];
      isLost := false;
      OffsetMoves(position, size, data.Length, 1);
      next := (at + size) % data.Length;
    }

    // The packets up to the write offset, and where that leaves the reader.
    method HandOver(writeOffset: nat, ghost seen: nat)
      returns (at: nat, packets: nat, lostSync: bool, ghost position: nat)
      requires IsSharing() && read <= seen <= |history| && writeOffset == OffsetOf(seen, data.Length)
      modifies this`handed, wrapPacket
      ensures var unread := history[read..seen];
        && handed == old(handed) + Packets(unread) && packets == |Packets(unread)|
        && lostSync == IsLost(Rest(unread))
        && position == (if lostSync then seen else seen - |Rest(unread)|)
      ensures at == OffsetOf(position, data.Length) && read <= position <= seen < read + data.Length
    {
      hide IsIntact, Room, HasPacket, Packets, Rest, IsLost, SizeOf, Read;
      at, position, packets, lostSync := offset, read, 0, false;
      ghost var unread, done := history[read..seen], [];
      LoadIsSmall(Shared(), read, seen);
      LoadBytesIsLoad(read, seen, data.Length);
      var load := LoadBytes(writeOffset, offset, data.Length);
      HandingBegins(unread);
      hide LoadBytes, IsSharing, IsHanding, OffsetOf;
      while load >= HEADER_SIZE
        invariant IsSharing() && read <= position <= seen && load == seen - position
        invariant at == OffsetOf(position, data.Length) && !lostSync
        invariant handed == old(handed) + done && packets == |done|
        invariant IsHanding(done, history[position..seen], unread)
        decreases load
      {
        ghost var s := history[position..seen];
        PacketsUnfold(s);
        HandingGoesOn(done, s, unread);
        var size, isLost, next := NextPacket(at, load, position, seen);
        if size == 0 {
          if isLost {
            lostSync, at, position := true, writeOffset, seen;
          }
          return;
        }
        SliceOfSlice(history, position, seen, size);
        Append(old(handed), done, [s[..size]]);
        done := done + [s[..size]];
        at, load, packets, position := next, load - size, packets + 1, position + size;
      }
      TooShort(history[position..seen]);
      HandingGoesOn(done, history[position..seen], unread);
    }

    /**
     * Hands over every whole packet between the read offset and the write offset that the
     * driver reports, and moves the read offset past them; the card had then written up to
     * seen. Out of sync, it moves to the write offset.
     */
    method Pass(status: Result, writeOffset: nat, setStatus: Result, ghost seen: nat)
      returns (result: Result, packets: nat, lostSync: bool)
      requires Valid() && read <= seen <= |history|
      requires status.Ok? && writeOffset < data.Length ==> writeOffset == seen % data.Length
      modifies this`offset, this`handed, this`read, this`told, this`base, this`before, wrapPacket
      ensures Valid()
      ensures if lostSync then base == read == seen && before == handed
              else base == old(base) && before == old(before)
      ensures var isRead := status.Ok? && writeOffset < data.Length;
        var unread := history[old(read)..seen];
        && result == (if !status.Ok? then status else if !isRead then BadOffset
                      else if offset == old(offset) then Ok else setStatus)
        && (!isRead ==> read == old(read) && handed == old(handed) && packets == 0 && !lostSync)
        && (isRead ==> && handed == old(handed) + Packets(unread) && packets == |Packets(unread)|
                       && lostSync == IsLost(Rest(unread))
                       && read == if lostSync then seen else seen - |Rest(unread)|)
        && told == if isRead && offset != old(offset) && setStatus.Ok? then read else old(told)
    {
      hide IsIntact, Room, Packets, Rest, IsLost, IsHanded;
      ReadIsThere(Shared(), read, seen);
      MoreHanded(handed, before, history, base, read, seen);
      packets, lostSync := 0, false;
      if !status.Ok? {
        return status, 0, false;
      }
      if writeOffset >= data.Length {
        return BadOffset, 0, false;
      }
      var at: nat;
      ghost var position: nat;
      at, packets, lostSync, position := HandOver(writeOffset, seen);
      if lostSync {
        base, before := seen, handed;
        HandedAnew(handed, history, seen);
      }
      result := Ok;
      if at == offset {
        SameOffset(read, position, data.Length);
        return;
      }
      ReadIsThere(Shared(), position, seen);
      offset, read := at, position;
      if setStatus.Ok? {
        told := read;
      }
      return setStatus, packets, lostSync;
    }
  }
}
