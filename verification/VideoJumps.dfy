// Source/AvFifo/DtSt2110Video.c, reception: when the row numbers of packets tell 4:2:0 video.

/**
 * By how many rows the last packet of a frame goes on, in closed form: from the bytes of a row,
 * those of a payload and the number of rows.
 */
module VideoJumps {
  import opened Arithmetic
  import opened VideoCut
  import opened VideoLossless
  import opened VideoParser
  import opened VideoRoundTrip
  import opened VideoSafety
  import opened VideoStream

  // ---------------------------------------------------------------- The closed form

  /** With payloads of up to two rows packets are full, and the last row starts in packet m + 1. */
  function JumpOfTwo(rows: nat, rowSize: nat, payloadSize: nat): int
    requires rows > 0 && rowSize > 0 && payloadSize > 0
  {
    var m := (rows - 1) * rowSize / payloadSize;
    if m == 0 then 0 else rows - (m * payloadSize + rowSize - 1) / rowSize
  }

  /** With payloads of three rows or more every packet has three. */
  function JumpOfThree(rows: nat): int {
    if rows <= 3 then 0 else if rows % 3 == 0 then 3 else rows % 3
  }

  /** How many packets there are between two that start with a row, for payloads in between. */
  function Packets(rowSize: nat, payloadSize: nat): (q: nat)
    requires 2 * rowSize < payloadSize < 3 * rowSize
    ensures q >= 2
    ensures (q - 1) * (payloadSize - 2 * rowSize) < rowSize <= q * (payloadSize - 2 * rowSize)
  {
    var d := payloadSize - 2 * rowSize;
    RoundedUp(rowSize, d);
    (rowSize + d - 1) / d
  }

  lemma RoundedUp(n: nat, d: nat)
    requires 0 < d < n
    ensures var q := (n + d - 1) / d;
      q >= 2 && (q - 1) * d < n <= q * d
  {
    DivBounds(n + d - 1, d);
    var q := (n + d - 1) / d;
    assert (q - 1) * d == d * q - d;
    if q < 2 {
      MulMonotone(q, 1, d);
    }
  }

  /** The first of these packets has three rows, and each other goes on by two. */
  function JumpBetween(rows: nat, q: nat): (jump: int) {
    var s := rows % (2 * q + 1);
    if s == 0 then 2 else if s <= 3 then s else 2 - (s - 3) % 2
  }

  /** By how many rows the last packet that does so goes on, behind the first packet. */
  function JumpOf(c: TxConfig, rows: nat): int
    requires Valid(c) && rows > 0
  {
    if c.oneLinePerPacket then if rows >= 2 then 1 else 0
    else if c.payloadSize <= 2 * c.rowSize then JumpOfTwo(rows, c.rowSize, c.payloadSize)
    else if c.payloadSize >= 3 * c.rowSize then JumpOfThree(rows)
    else if rows <= 3 then 0
    else JumpBetween(rows, Packets(c.rowSize, c.payloadSize))
  }

  // ---------------------------------------------------------------- Packets of some rows

  // A frame of which every row was seen goes on no further.
  lemma {:induction false} NoMoreRows(c: TxConfig, rows: nat, p: Place, jump: int)
    requires Valid(c) && IsPlace(c, p) && p.rowOffset % c.pgroupBytes == 0 && p.rowsToDo <= rows
    requires RowsSeen(rows, p) == rows
    ensures LastJump(c, rows, p, jump) == jump
    decreases p.rowsToDo, c.rowSize - p.rowOffset
  {
    hide CutPacket;
    if p.rowsToDo > 0 {
      var end := CutPacket(c, p).1;
      NoMoreRows(c, rows, end, jump);
    }
  }

  /** How far a packet goes that is not of one line: its payload, or what three headers hold. */
  lemma PacketEnds(c: TxConfig, p: Place)
    requires Valid(c) && IsPlace(c, p) && p.rowsToDo > 0 && p.rowOffset % c.pgroupBytes == 0
    requires !c.oneLinePerPacket && c.rowSize < c.payloadSize
    ensures var end, at := CutPacket(c, p).1, p.rowOffset + c.payloadSize;
      end == if at >= 3 * c.rowSize
             then Place(if p.rowsToDo <= 3 then 0 else p.rowsToDo - 3, 0)
             else if at >= 2 * c.rowSize
             then if p.rowsToDo <= 2 then Place(0, 0) else Place(p.rowsToDo - 2, at - 2 * c.rowSize)
             else if p.rowsToDo <= 1 then Place(0, 0) else Place(p.rowsToDo - 1, at - c.rowSize)
  {
    HeadersHaveRoom(c, p);
    var n := NumRowHeaders(c, c.rowSize - p.rowOffset, p.rowsToDo);
    var q, used := AfterNext(c, p, 0), NextSegment(c, p, 0).length;
    assert CutPacket(c, p).1 == Cut(c, q, n - 1, used).1;
    assert used == c.rowSize - p.rowOffset && q == Place(p.rowsToDo - 1, 0);
    if n == 1 {
      assert Cut(c, q, 0, used).1 == q;
    } else {
      var r, more := AfterNext(c, q, used), used + NextSegment(c, q, used).length;
      assert Cut(c, q, n - 1, used).1 == Cut(c, r, n - 2, more).1;
      if n == 2 {
        assert Cut(c, r, 0, more).1 == r;
      } else {
        var t, all := AfterNext(c, r, more), more + NextSegment(c, r, more).length;
        assert Cut(c, r, 1, more).1 == Cut(c, t, 0, all).1 == t;
      }
    }
  }

  // ---------------------------------------------------------------- Payloads of up to two rows

  function RoundUp(bytes: nat, rowSize: nat): int
    requires rowSize > 0
  {
    (bytes + rowSize - 1) / rowSize
  }

  lemma RoundUpIs(rows: nat, rowSize: nat, offset: nat)
    requires offset < rowSize
    ensures RoundUp(rows * rowSize + offset, rowSize) == rows + if offset == 0 then 0 else 1
  {
    var more := if offset == 0 then 0 else 1;
    assert (rows + more) * rowSize == rows * rowSize + more * rowSize;
    DivUnique(rows * rowSize + offset + rowSize - 1, rowSize, rows + more);
  }

  /** The last jump, when so many bytes are sent and left more before the last row. */
  function JumpFrom(rows: nat, rowSize: nat, payloadSize: nat, sent: nat, left: nat,
                    jump: int): int
    requires rowSize > 0 && payloadSize > 0
  {
    var m := left / payloadSize;
    if m == 0 && sent == 0 then jump else rows - RoundUp(sent + m * payloadSize, rowSize)
  }

  lemma OnePacketLess(left: nat, payloadSize: nat)
    requires 0 < payloadSize <= left
    ensures var m, less := left / payloadSize, (left - payloadSize) / payloadSize;
      m == less + 1 && m * payloadSize == payloadSize + less * payloadSize
  {
    DivBounds(left, payloadSize);
    var m := left / payloadSize;
    assert (m - 1) * payloadSize == payloadSize * m - payloadSize;
    DivUnique(left - payloadSize, payloadSize, m - 1);
  }

  lemma {:induction false} JumpsOfTwo(c: TxConfig, rows: nat, p: Place, jump: int, sent: nat,
                                      left: nat)
    requires Valid(c) && IsPlace(c, p) && p.rowOffset % c.pgroupBytes == 0 && p.rowsToDo <= rows
    requires !c.oneLinePerPacket && c.rowSize < c.payloadSize <= 2 * c.rowSize
    requires RowsSeen(rows, p) < rows
    requires sent == (rows - p.rowsToDo) * c.rowSize + p.rowOffset
    requires left == (p.rowsToDo - 1) * c.rowSize - p.rowOffset
    ensures LastJump(c, rows, p, jump)
         == JumpFrom(rows, c.rowSize, c.payloadSize, sent, left, jump)
    decreases p.rowsToDo, c.rowSize - p.rowOffset
  {
    hide CutPacket;
    PacketEnds(c, p);
    RoundUpIs(rows - p.rowsToDo, c.rowSize, p.rowOffset);
    var end, size := CutPacket(c, p).1, c.payloadSize;
    var more := RowsSeen(rows, end) - RowsSeen(rows, p);
    var next := if RowsSeen(rows, p) == 0 || more == 0 then jump else more;
    EndsThere(c, rows, p, end, left);
    hide RoundUp, JumpFrom;
    JumpGoesOn(rows, c.rowSize, size, sent, left, jump, next);
    if left < size {
      NoMoreRows(c, rows, end, next);
      NothingSent(rows - p.rowsToDo, c.rowSize, p.rowOffset);
    } else {
      JumpsOfTwo(c, rows, end, next, sent + size, left - size);
    }
  }

  lemma JumpGoesOn(rows: nat, rowSize: nat, size: nat, sent: nat, left: nat, jump: int, next: int)
    requires rowSize > 0 && size > 0
    ensures JumpFrom(rows, rowSize, size, sent, left, jump)
         == if left >= size then JumpFrom(rows, rowSize, size, sent + size, left - size, next)
            else if sent == 0 then jump else rows - RoundUp(sent, rowSize)
  {
    hide RoundUp;
    if left < size {
      SmallQuotient(left, size);
    } else {
      OnePacketLess(left, size);
    }
  }

  lemma SmallQuotient(n: nat, d: nat)
    requires n < d
    ensures n / d == 0
  {
  }

  lemma NothingSent(rows: nat, rowSize: nat, offset: nat)
    requires rowSize > 0
    ensures rows * rowSize + offset == 0 <==> rows == 0 && offset == 0
  {
    MulMonotone(if rows == 0 then 0 else 1, rows, rowSize);
  }

  // A packet reaches the last row, or is full.
  lemma EndsThere(c: TxConfig, rows: nat, p: Place, end: Place, left: nat)
    requires IsPlace(c, p) && p.rowsToDo <= rows && RowsSeen(rows, p) < rows
    requires c.rowSize < c.payloadSize <= 2 * c.rowSize
    requires left == (p.rowsToDo - 1) * c.rowSize - p.rowOffset
    requires var at := p.rowOffset + c.payloadSize;
      end == if at >= 2 * c.rowSize
             then if p.rowsToDo <= 2 then Place(0, 0) else Place(p.rowsToDo - 2, at - 2 * c.rowSize)
             else if p.rowsToDo <= 1 then Place(0, 0) else Place(p.rowsToDo - 1, at - c.rowSize)
    ensures if left < c.payloadSize then RowsSeen(rows, end) == rows
            else RowsSeen(rows, end) < rows && end.rowsToDo <= rows
                 && (rows - end.rowsToDo) * c.rowSize + end.rowOffset
                    == (rows - p.rowsToDo) * c.rowSize + p.rowOffset + c.payloadSize
                 && (end.rowsToDo - 1) * c.rowSize - end.rowOffset == left - c.payloadSize
  {
    var k := p.rowsToDo;
    Multiples(k, c.rowSize);
    Multiples(rows - k, c.rowSize);
    if k >= 4 {
      MulMonotone(3, k - 1, c.rowSize);
    }
  }

  lemma Multiples(k: int, size: int)
    ensures (k - 1) * size == k * size - size && (k - 2) * size == k * size - 2 * size
    ensures (k - 3) * size == k * size - 3 * size
    ensures (k + 1) * size == k * size + size && (k + 2) * size == k * size + 2 * size
  {
  }

  // ---------------------------------------------------------------- Payloads of three rows

  lemma {:induction false} JumpsOfThree(c: TxConfig, rows: nat, p: Place, jump: int)
    requires Valid(c) && 0 < p.rowsToDo < rows && p.rowOffset == 0
    requires !c.oneLinePerPacket && c.payloadSize >= 3 * c.rowSize
    ensures LastJump(c, rows, p, jump) == if p.rowsToDo % 3 == 0 then 3 else p.rowsToDo % 3
    decreases p.rowsToDo
  {
    hide CutPacket;
    PacketEnds(c, p);
    var end := CutPacket(c, p).1;
    if p.rowsToDo <= 3 {
      NoMoreRows(c, rows, end, p.rowsToDo);
    } else {
      JumpsOfThree(c, rows, end, 3);
    }
  }

  // ---------------------------------------------------------------- Payloads in between

  lemma JumpsRepeat(v: nat, q: nat)
    requires q >= 2
    ensures JumpBetween(v + (2 * q + 1), q) == JumpBetween(v, q)
  {
    ModPlus(v, 2 * q + 1);
  }

  lemma ModPlus(v: nat, m: nat)
    requires m > 0
    ensures (v + m) % m == v % m
  {
    DivBounds(v, m);
    var q := v / m;
    assert (q + 1) * m == m * q + m;
    DivUnique(v + m, m, q + 1);
  }

  lemma SmallModulus(v: nat, m: nat)
    requires v < m
    ensures v % m == v
  {
  }

  lemma SmallJump(v: nat, q: nat)
    requires q >= 2 && 0 < v <= 2 * q + 1
    ensures JumpBetween(v, q) == if v <= 3 then v else 2 - (v - 3) % 2
  {
    if v < 2 * q + 1 {
      SmallModulus(v, 2 * q + 1);
    } else {
      ModPlus(0, v);
      SmallModulus(0, v);
      MultipleOf(2, q - 1);
    }
  }

  /** The rows up to the next that starts a packet, seen by the j-th packet since the last one. */
  function Phase(j: nat): nat {
    if j == 0 then 0 else 2 * j + 1
  }

  lemma {:induction false} JumpsBetween(c: TxConfig, rows: nat, p: Place, jump: int, j: nat,
                                        q: nat)
    requires Valid(c) && IsPlace(c, p) && p.rowOffset % c.pgroupBytes == 0 && p.rowsToDo <= rows
    requires !c.oneLinePerPacket && 2 * c.rowSize < c.payloadSize < 3 * c.rowSize
    requires q == Packets(c.rowSize, c.payloadSize) && j < q
    requires p.rowOffset == j * (c.payloadSize - 2 * c.rowSize)
    requires 0 < RowsSeen(rows, p) < rows
    ensures LastJump(c, rows, p, jump) == JumpBetween(rows - RowsSeen(rows, p) + Phase(j), q)
    decreases p.rowsToDo, c.rowSize - p.rowOffset
  {
    hide CutPacket, Packets, JumpBetween;
    PacketEnds(c, p);
    var d, end := c.payloadSize - 2 * c.rowSize, CutPacket(c, p).1;
    var unseen, more := rows - RowsSeen(rows, p), RowsSeen(rows, end) - RowsSeen(rows, p);
    NextOffset(j, d, q, c.rowSize);
    assert p.rowOffset + c.payloadSize == 2 * c.rowSize + (j + 1) * d;
    assert (p.rowOffset == 0) == (j == 0) by {
      NothingSent(j, d, 0);
    }
    SmallJump(if unseen + Phase(j) <= 2 * q + 1 then unseen + Phase(j) else 1, q);
    if RowsSeen(rows, end) == rows {
      NoMoreRows(c, rows, end, more);
      LastOfPhase(j, unseen);
    } else if j + 1 == q {
      JumpsRepeat(unseen - 2, q);
      JumpsBetween(c, rows, end, more, 0, q);
    } else {
      JumpsBetween(c, rows, end, more, j + 1, q);
    }
  }

  lemma NextOffset(j: nat, d: nat, q: nat, rowSize: nat)
    requires j < q && 0 < d && (q - 1) * d < rowSize <= q * d
    ensures (j + 1) * d >= rowSize <==> j + 1 == q
    ensures (j + 1) * d == j * d + d
  {
    if j + 1 < q {
      MulMonotone(j + 1, q - 1, d);
    }
  }

  lemma LastOfPhase(j: nat, unseen: nat)
    requires 0 < unseen <= if j == 0 then 3 else 2
    ensures var v := unseen + Phase(j); unseen == if v <= 3 then v else 2 - (v - 3) % 2
  {
  }

  // ---------------------------------------------------------------- All of them

  lemma JumpIsOne(rows: nat, rowSize: nat, payloadSize: nat)
    requires 0 < payloadSize <= rowSize && rows > 0
    ensures JumpOfTwo(rows, rowSize, payloadSize) == if rows >= 2 then 1 else 0
  {
    if rows == 1 {
      SmallQuotient(0, payloadSize);
    } else {
      var before := (rows - 1) * rowSize;
      Multiples(rows - 1, rowSize);
      MulMonotone(1, rows - 1, rowSize);
      DivBounds(before, payloadSize);
      var m := before / payloadSize;
      DivUnique(m * payloadSize + rowSize - 1, rowSize, rows - 1);
    }
  }

  /** The last jump of a frame, whatever its rows and payloads. */
  lemma JumpIs(c: TxConfig, rows: nat)
    requires Valid(c) && rows > 0
    ensures LastJump(c, rows, Place(rows, 0), 0) == JumpOf(c, rows)
  {
    hide LastJump, JumpOf;
    if c.oneLinePerPacket || c.payloadSize <= c.rowSize {
      JumpIsSmall(c, rows);
    } else if c.payloadSize <= 2 * c.rowSize {
      JumpIsOfTwo(c, rows);
    } else if c.payloadSize >= 3 * c.rowSize {
      JumpIsOfThree(c, rows);
    } else {
      JumpIsBetween(c, rows);
    }
  }

  lemma JumpIsOfTwo(c: TxConfig, rows: nat)
    requires Valid(c) && rows > 0 && !c.oneLinePerPacket
    requires c.rowSize < c.payloadSize <= 2 * c.rowSize
    ensures LastJump(c, rows, Place(rows, 0), 0) == JumpOf(c, rows)
  {
    JumpsOfTwo(c, rows, Place(rows, 0), 0, 0, (rows - 1) * c.rowSize);
    hide LastJump;
  }

  lemma JumpIsOfThree(c: TxConfig, rows: nat)
    requires Valid(c) && rows > 0 && !c.oneLinePerPacket && c.payloadSize >= 3 * c.rowSize
    ensures LastJump(c, rows, Place(rows, 0), 0) == JumpOf(c, rows)
  {
    hide CutPacket, JumpOfTwo, JumpBetween;
    var p := Place(rows, 0);
    PacketEnds(c, p);
    if rows <= 3 {
      NoMoreRows(c, rows, CutPacket(c, p).1, 0);
    } else {
      ThreeBack(rows);
      JumpsOfThree(c, rows, CutPacket(c, p).1, 0);
    }
  }

  lemma ThreeBack(rows: nat)
    requires rows > 3
    ensures (rows - 3) % 3 == rows % 3
  {
  }

  lemma JumpIsSmall(c: TxConfig, rows: nat)
    requires Valid(c) && rows > 0 && (c.oneLinePerPacket || c.payloadSize <= c.rowSize)
    ensures LastJump(c, rows, Place(rows, 0), 0) == JumpOf(c, rows)
  {
    var p := Place(rows, 0);
    if rows >= 2 {
      JumpsByOne(c, rows, p, 0);
    } else {
      OneRowOn(c, rows, p);
      hide CutPacket;
      NoMoreRows(c, rows, CutPacket(c, p).1, 0);
    }
    if !c.oneLinePerPacket {
      JumpIsOne(rows, c.rowSize, c.payloadSize);
    }
  }

  lemma JumpIsBetween(c: TxConfig, rows: nat)
    requires Valid(c) && rows > 0 && !c.oneLinePerPacket
    requires 2 * c.rowSize < c.payloadSize < 3 * c.rowSize
    ensures LastJump(c, rows, Place(rows, 0), 0) == JumpOf(c, rows)
  {
    var p, q := Place(rows, 0), Packets(c.rowSize, c.payloadSize);
    hide CutPacket, Packets, JumpBetween, JumpOfTwo, JumpOfThree;
    PacketEnds(c, p);
    var end := CutPacket(c, p).1;
    if rows <= 3 {
      NoMoreRows(c, rows, end, 0);
    } else {
      JumpsBetween(c, rows, end, 0, 1, q);
    }
  }

  /** Whether the rows and payloads of a stream make clear whether it is 4:2:0. */
  predicate IsClear(c: TxConfig, rows: nat)
    requires Valid(c) && rows > 0
  {
    if c.is420 then JumpOf(c, rows) == 1 else JumpOf(c, rows) != 2
  }

  lemma JumpIsClear(c: TxConfig, rows: nat)
    requires Valid(c) && rows > 0
    ensures IsJumpClear(c, rows) <==> IsClear(c, rows)
  {
    JumpIs(c, rows);
    hide LastJump, JumpOf;
  }

  /**
   * Every frame but the first is delivered with the flag of 4:2:0 video that its stream has if
   * and only if the rows of the first frame and the payload size make that clear.
   */
  lemma FlagIsClear(format: Format, c: TxConfig, t: Stream, frames: seq<WireFrame>, seqNum: nat,
                    tods: seq<nat>, envs: seq<Env>)
    requires IsFit(format, c, t) && IsSource(c, frames) && AllWell(envs) && frames != []
    requires AreFrames(c, frames) && |tods| == |envs| == |AllPackets(c, t, frames, 0, seqNum)|
    requires HavePayloads(AllPackets(c, t, frames, 0, seqNum))
    requires Valid(c) && RowsOf(c, frames[0]) > 0
    ensures var s := Run(format, INITIAL, InSequence(AllPackets(c, t, frames, 0, seqNum), tods),
                         envs);
      && |s.delivered| == |frames| - 1
      && forall f | f in s.delivered ::
           f.is420 == c.is420 <==> IsClear(c, RowsOf(c, frames[0]))
  {
    hide AllPackets, Run, InSequence, HavePayloads, IsSource, AreFrames, IsJumpClear, IsClear;
    hide IsFit, AllWell, RowsOf;
    FlagIsDelivered(format, c, t, frames, seqNum, tods, envs);
    JumpIsClear(c, RowsOf(c, frames[0]));
  }
}
