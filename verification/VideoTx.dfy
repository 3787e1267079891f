// Source/AvFifo/DtSt2110Video.c, transmission: the row headers and the converted data of a packet.

module VideoTx {
  import opened Arithmetic
  import opened Bytes
  import opened Headers
  import opened PixelSpec
  import opened VideoCut
  import opened VideoStream
  import PixConv

  // ---------------------------------------------------------------- Row headers and data

  // Row headers from srdAt on and data from dstAt on, and nothing else changed.
  ghost predicate IsFilled(pre: seq<Byte>, now: seq<Byte>, srdAt: nat, headers: seq<Byte>,
                           dstAt: nat, data: seq<Byte>)
  {
    && srdAt + |headers| <= dstAt && dstAt + |data| <= |pre| == |now|
    && now[..srdAt] == pre[..srdAt] && now[srdAt..srdAt + |headers|] == headers
    && now[dstAt..dstAt + |data|] == data && now[dstAt + |data|..] == pre[dstAt + |data|..]
  }

  lemma FilledGoesOn(pre: seq<Byte>, now: seq<Byte>, mid: seq<Byte>, post: seq<Byte>, srdAt: nat,
                     headers: seq<Byte>, dstAt: nat, data: seq<Byte>, row: seq<Byte>,
                     part: seq<Byte>)
    requires IsFilled(pre, now, srdAt, headers, dstAt, data)
    requires srdAt + |headers| + |row| <= dstAt
    requires Stored(now, mid, srdAt + |headers|, row)
    requires Stored(mid, post, dstAt + |data|, part)
    ensures IsFilled(pre, post, srdAt, headers + row, dstAt, data + part)
  {
    StoredAt(now, mid, srdAt + |headers|, row);
    StoredAt(mid, post, dstAt + |data|, part);
    hide Stored;
    RowGoesOn(pre, now, mid, post, srdAt, headers, dstAt, data, row, part);
    DataGoesOn(pre, now, mid, post, srdAt, headers, dstAt, data, row, part);
  }

  lemma RowGoesOn(pre: seq<Byte>, now: seq<Byte>, mid: seq<Byte>, post: seq<Byte>, srdAt: nat,
                  headers: seq<Byte>, dstAt: nat, data: seq<Byte>, row: seq<Byte>,
                  part: seq<Byte>)
    requires IsFilled(pre, now, srdAt, headers, dstAt, data)
    requires srdAt + |headers| + |row| <= dstAt && dstAt + |data| + |part| <= |pre|
    requires |now| == |mid| == |post|
    requires forall j | 0 <= j < |now| ::
               mid[j] == if srdAt + |headers| <= j < srdAt + |headers| + |row|
                         then row[j - srdAt - |headers|] else now[j]
    requires forall j | 0 <= j < dstAt + |data| :: post[j] == mid[j]
    ensures post[..srdAt] == pre[..srdAt]
    ensures post[srdAt..srdAt + |headers| + |row|] == headers + row
  {
    assert forall j | 0 <= j < srdAt :: now[j] == now[..srdAt][j];
    assert forall j | 0 <= j < |headers| ::
        now[srdAt + j] == now[srdAt..srdAt + |headers|][j] == headers[j];
  }

  lemma DataGoesOn(pre: seq<Byte>, now: seq<Byte>, mid: seq<Byte>, post: seq<Byte>, srdAt: nat,
                   headers: seq<Byte>, dstAt: nat, data: seq<Byte>, row: seq<Byte>,
                   part: seq<Byte>)
    requires IsFilled(pre, now, srdAt, headers, dstAt, data)
    requires dstAt + |data| + |part| <= |pre| && |now| == |mid| == |post|
    requires forall j | dstAt <= j < |now| :: mid[j] == now[j]
    requires forall j | 0 <= j < |now| ::
               post[j] == if dstAt + |data| <= j < dstAt + |data| + |part|
                          then part[j - dstAt - |data|] else mid[j]
    ensures post[dstAt..dstAt + |data| + |part|] == data + part
    ensures post[dstAt + |data| + |part|..] == pre[dstAt + |data| + |part|..]
  {
    assert forall j | 0 <= j < |data| ::
        now[dstAt + j] == now[dstAt..dstAt + |data|][j] == data[j];
    var end := dstAt + |data|;
    assert now[end..][|part|..] == pre[end..][|part|..];
    assert now[end + |part|..] == now[end..][|part|..];
  }

  lemma FilledIsStored(pre: seq<Byte>, now: seq<Byte>, srdAt: nat, headers: seq<Byte>,
                       data: seq<Byte>)
    requires IsFilled(pre, now, srdAt, headers, srdAt + |headers|, data)
    ensures Stored(pre, now, srdAt, headers + data)
  {
    var dstAt := srdAt + |headers|;
    assert now[srdAt..dstAt + |data|] == now[srdAt..dstAt] + now[dstAt..dstAt + |data|];
  }

  // ---------------------------------------------------------------- Parts of a frame

  // What is sent of a part of whole groups is the part of what is sent.
  lemma PartOfWire(source: Source, data: seq<Byte>, a: nat, n: nat)
    requires a + n <= |data|
    requires source.FromUyvy10? ==> a % 5 == 0 && n % 5 == 0 && |data| % 5 == 0
    ensures |Wire(source, data)| == |data|
    ensures Wire(source, data[a..a + n]) == Wire(source, data)[a..a + n]
  {
    if source.FromUyvy10? {
      var front, part, back := data[..a], data[a..a + n], data[a + n..];
      assert data == front + (part + back);
      WholeGroups(a, n, |data|);
      ConvertedPart(front, part, back);
    }
  }

  lemma WholeGroups(a: nat, n: nat, size: nat)
    requires a % 5 == 0 && n % 5 == 0 && size % 5 == 0 && a + n <= size
    ensures (size - a - n) % 5 == 0
  {
  }

  // Whole groups on the wire.
  function OnWire(data: seq<Byte>): (r: seq<Byte>)
    requires |data| % 5 == 0
    ensures |r| == |data|
  {
    Convert(ToPg10, data)
  }

  lemma OnWireConcat(a: seq<Byte>, b: seq<Byte>)
    requires |a| % 5 == 0 && |b| % 5 == 0
    ensures |a + b| % 5 == 0 && OnWire(a + b) == OnWire(a) + OnWire(b)
  {
    ConvertConcat(ToPg10, a, b);
  }

  lemma ConvertedPart(front: seq<Byte>, part: seq<Byte>, back: seq<Byte>)
    requires |front| % 5 == 0 && |part| % 5 == 0 && |back| % 5 == 0
    ensures |front + (part + back)| % 5 == 0
    ensures OnWire(front + (part + back))[|front|..|front| + |part|] == OnWire(part)
  {
    hide OnWire;
    OnWireConcat(part, back);
    OnWireConcat(front, part + back);
    MiddlePart(OnWire(front), OnWire(part), OnWire(back));
  }

  lemma MiddlePart(x: seq<Byte>, y: seq<Byte>, z: seq<Byte>)
    ensures (x + (y + z))[|x|..|x| + |y|] == y
  {
  }

  /** The wire bytes of a part of a frame into a packet. */
  method CopyPart(source: Source, part: seq<Byte>, dst: array<Byte>, at: nat)
    requires at + |part| <= dst.Length && (source.FromUyvy10? ==> |part| % 5 == 0)
    modifies dst
    ensures Stored(old(dst[..]), dst[..], at, Wire(source, part))
  {
    if source.FromUyvy10? {
      PixConv.Uyvy10ToPg10(part, dst, at);
    } else {
      Store(dst, at, part);
    }
  }

  // What is left of a packet after some of its headers: the other headers, and their bytes.
  function HeadersLeft(c: TxConfig, rows: nat, field: bool, p: Place, headers: nat,
                       used: nat): seq<Byte>
    requires c.pgroupBytes > 0 && CanCut(c, p, headers, used)
  {
    SrdsBytes(RowHeaders(c, rows, field, Cut(c, p, headers, used).0))
  }

  function BytesLeft(c: TxConfig, p: Place, headers: nat, used: nat): nat
    requires CanCut(c, p, headers, used)
  {
    Sum(Cut(c, p, headers, used).0)
  }

  lemma NextRowHeader(c: TxConfig, rows: nat, field: bool, s: Segment, rest: seq<Segment>)
    requires c.pgroupBytes > 0
    ensures SrdsBytes(RowHeaders(c, rows, field, [s] + rest))
         == SrdBytes(RowHeader(c, rows, field, s, rest == []))
            + SrdsBytes(RowHeaders(c, rows, field, rest))
    ensures Sum([s] + rest) == s.length + Sum(rest)
  {
    hide SrdBytes, RowHeader;
    assert ([s] + rest)[1..] == rest;
    var row := RowHeader(c, rows, field, s, rest == []);
    var others := RowHeaders(c, rows, field, rest);
    assert ([row] + others)[1..] == others;
  }

  lemma NoHeadersLeft(c: TxConfig, rows: nat, field: bool, p: Place, used: nat)
    requires c.pgroupBytes > 0
    ensures CanCut(c, p, 0, used) && HeadersLeft(c, rows, field, p, 0, used) == []
    ensures BytesLeft(c, p, 0, used) == 0 && Cut(c, p, 0, used).1 == p
  {
  }

  // ---------------------------------------------------------------- The segments of a packet

  /** A part of a frame that is yet to go out, and the numbers that the walk keeps. */
  datatype Walk = Walk(rowsToDo: nat, rowOffset: nat, rowNum: nat)

  function PlaceOf(w: Walk): Place {
    Place(w.rowsToDo, w.rowOffset)
  }

  // One segment: its row header and its bytes.
  method WriteSegment(c: TxConfig, source: Source, walk: Walk, field: bool, used: nat,
                      isLast: bool, part: seq<Byte>, room: array<Byte>, srdAt: nat,
                      dstAt: nat)
    returns (next: Walk, ghost mid: seq<Byte>)
    requires c.pgroupBytes > 0 && HasRoom(c, PlaceOf(walk), used)
    requires |part| == NextSegment(c, PlaceOf(walk), used).length
    requires source.FromUyvy10? ==> |part| % 5 == 0
    requires srdAt + SRD_SIZE <= room.Length && dstAt + |part| <= room.Length
    modifies room
    ensures PlaceOf(next) == AfterNext(c, PlaceOf(walk), used)
    ensures next.rowNum == walk.rowNum + (walk.rowsToDo - next.rowsToDo) * RowStep(c)
    ensures Stored(old(room[..]), mid, srdAt,
                   SrdBytes(Srd(|part|, field, walk.rowNum, !isLast,
                                walk.rowOffset / c.pgroupBytes * c.pgroupPixels)))
    ensures Stored(mid, room[..], dstAt, Wire(source, part))
  {
    hide Wire, Stored, SrdBytes;
    var row := Srd(|part|, field, walk.rowNum, !isLast,
                   walk.rowOffset / c.pgroupBytes * c.pgroupPixels);
    Store(room, srdAt, SrdBytes(row));
    mid := room[..];
    CopyPart(source, part, room, dstAt);
    var rowOffset := walk.rowOffset + |part|;
    if rowOffset == c.rowSize {
      next := Walk(walk.rowsToDo - 1, 0, walk.rowNum + if c.is420 then 2 else 1);
    } else {
      next := Walk(walk.rowsToDo, rowOffset, walk.rowNum);
    }
  }

  // The segments of a packet are whole pixel groups.
  lemma NextIsWhole(c: TxConfig, p: Place, used: nat)
    requires Valid(c) && HasRoom(c, p, used)
    requires p.rowOffset % c.pgroupBytes == 0 && used % c.pgroupBytes == 0
    ensures var s, q := NextSegment(c, p, used), AfterNext(c, p, used);
      && s.length % c.pgroupBytes == 0 && (used + s.length) % c.pgroupBytes == 0
      && q.rowOffset % c.pgroupBytes == 0
  {
    var s := NextSegment(c, p, used);
    MultiplesAdd(c.rowSize, p.rowOffset, c.pgroupBytes);
    MultiplesAdd(c.payloadSize, used, c.pgroupBytes);
    MultiplesAdd(p.rowOffset, s.length, c.pgroupBytes);
    MultiplesAdd(used, s.length, c.pgroupBytes);
  }

  // What a configuration says of the pixel format of its frames.
  predicate IsSource(source: Source, c: TxConfig) {
    Valid(c) && (source.FromUyvy10? ==> c.pgroupBytes == 5)
  }

  lemma SourceFacts(source: Source, c: TxConfig)
    requires IsSource(source, c)
    ensures c.pgroupBytes > 0 && (source.FromUyvy10? ==> c.pgroupBytes == 5)
  {
  }

  lemma HeaderIs(c: TxConfig, rows: nat, field: bool, s: Segment, isLast: bool)
    requires c.pgroupBytes > 0
    ensures RowHeader(c, rows, field, s, isLast)
         == Srd(s.length, field, (rows - s.at.rowsToDo) * RowStep(c), !isLast,
                s.at.rowOffset / c.pgroupBytes * c.pgroupPixels)
  {
  }

  lemma StartsFilled(pre: seq<Byte>, srdAt: nat, dstAt: nat)
    requires srdAt <= dstAt <= |pre|
    ensures IsFilled(pre, pre, srdAt, [], dstAt, [])
  {
  }

  lemma WireSize(source: Source, c: TxConfig, data: seq<Byte>)
    requires IsSource(source, c) && |data| % c.pgroupBytes == 0
    ensures |Wire(source, data)| == |data|
  {
  }

  // A segment written extends what is filled by it.
  lemma SegmentGoesOn(source: Source, c: TxConfig, pre: seq<Byte>, now: seq<Byte>,
                      mid: seq<Byte>, post: seq<Byte>, srdAt: nat, headers: seq<Byte>,
                      dstAt: nat, data: seq<Byte>, from: nat, used: nat, row: Srd, length: nat)
    requires IsSource(source, c) && from % c.pgroupBytes == 0 && used % c.pgroupBytes == 0
    requires length % c.pgroupBytes == 0 && |data| % c.pgroupBytes == 0
    requires from + used + length <= |data| == |Wire(source, data)|
    requires IsFilled(pre, now, srdAt, headers, dstAt, Wire(source, data)[from..from + used])
    requires srdAt + |headers| + SRD_SIZE <= dstAt
    requires Stored(now, mid, srdAt + |headers|, SrdBytes(row))
    requires Stored(mid, post, dstAt + used,
                    Wire(source, data[from + used..from + used + length]))
    ensures IsFilled(pre, post, srdAt, headers + SrdBytes(row), dstAt,
                     Wire(source, data)[from..from + used + length])
  {
    hide Wire, Stored, SrdBytes, IsFilled, Valid;
    SourceFacts(source, c);
    MultiplesAdd(from, used, c.pgroupBytes);
    PartOfWire(source, data, from + used, length);
    var wire := Wire(source, data);
    var part := wire[from + used..from + used + length];
    FilledGoesOn(pre, now, mid, post, srdAt, headers, dstAt, wire[from..from + used],
                 SrdBytes(row), part);
    assert wire[from..from + used + length] == wire[from..from + used] + part;
  }

  lemma RowNumber(rows: nat, before: nat, after: nat, step: nat, rowNum: nat)
    requires after <= before <= rows && rowNum == (rows - before) * step
    ensures (rows - after) * step == rowNum + (before - after) * step
  {
  }

  /** The row headers and the bytes of the packet that starts at a place. */
  method WriteSegments(c: TxConfig, source: Source, rows: nat, start: Walk, field: bool,
                       numHeaders: nat, data: seq<Byte>, from: nat, room: array<Byte>,
                       srdAt: nat)
    returns (next: Walk, used: nat)
    requires IsSource(source, c) && CanCut(c, PlaceOf(start), numHeaders, 0)
    requires start.rowOffset % c.pgroupBytes == 0
    requires start.rowsToDo <= rows && start.rowNum == (rows - start.rowsToDo) * RowStep(c)
    requires from % c.pgroupBytes == 0 && |data| % c.pgroupBytes == 0
    requires from + BytesLeft(c, PlaceOf(start), numHeaders, 0) <= |data|
    requires srdAt + SRD_SIZE * numHeaders + BytesLeft(c, PlaceOf(start), numHeaders, 0)
             <= room.Length
    modifies room
    ensures used == BytesLeft(c, PlaceOf(start), numHeaders, 0)
    ensures PlaceOf(next) == Cut(c, PlaceOf(start), numHeaders, 0).1
    ensures next.rowsToDo <= rows && next.rowNum == (rows - next.rowsToDo) * RowStep(c)
    ensures |Wire(source, data)| == |data|
    ensures Stored(old(room[..]), room[..], srdAt,
                   HeadersLeft(c, rows, field, PlaceOf(start), numHeaders, 0)
                   + Wire(source, data)[from..from + used])
  {
    hide Wire, Stored, SrdBytes, SrdsBytes, IsFilled, CanCut, Cut, Valid, RowHeaders, RowHeader;
    hide AfterNext, RowStep, Sum;
    SourceFacts(source, c);
    next, used := start, 0;
    var dstAt := srdAt + SRD_SIZE * numHeaders;
    ghost var pre, headers: seq<Byte> := room[..], [];
    ghost var all := HeadersLeft(c, rows, field, PlaceOf(start), numHeaders, 0);
    ghost var wire, sum := Wire(source, data), BytesLeft(c, PlaceOf(start), numHeaders, 0);
    StartsFilled(pre, srdAt, dstAt);
    WireSize(source, c, data);
    assert wire[from..from] == [];
    for h := 0 to numHeaders
      invariant CanCut(c, PlaceOf(next), numHeaders - h, used)
      invariant used % c.pgroupBytes == 0 && next.rowOffset % c.pgroupBytes == 0
      invariant used + BytesLeft(c, PlaceOf(next), numHeaders - h, used) == sum
      invariant |headers| == SRD_SIZE * h
      invariant all == headers + HeadersLeft(c, rows, field, PlaceOf(next), numHeaders - h, used)
      invariant Cut(c, PlaceOf(next), numHeaders - h, used).1
             == Cut(c, PlaceOf(start), numHeaders, 0).1
      invariant next.rowsToDo <= rows && next.rowNum == (rows - next.rowsToDo) * RowStep(c)
      invariant IsFilled(pre, room[..], srdAt, headers, dstAt, wire[from..from + used])
    {
      ghost var p := PlaceOf(next);
      NextHeader(c, p, numHeaders - h, used);
      ghost var s, q := NextSegment(c, p, used), AfterNext(c, p, used);
      NextRowHeader(c, rows, field, s, Cut(c, q, numHeaders - h - 1, used + s.length).0);
      NextIsWhole(c, p, used);
      var length := SegmentBytes(c, next.rowOffset, used);
      ghost var now, walk := room[..], next;
      ghost var mid;
      next, mid := WriteSegment(c, source, next, field, used, h + 1 == numHeaders,
                                data[from + used..from + used + length], room,
                                srdAt + SRD_SIZE * h, dstAt + used);
      ghost var row := RowHeader(c, rows, field, s, numHeaders - h == 1);
      HeaderIs(c, rows, field, s, numHeaders - h == 1);
      SegmentGoesOn(source, c, pre, now, mid, room[..], srdAt, headers, dstAt, data, from, used,
                    row, length);
      RowNumber(rows, walk.rowsToDo, next.rowsToDo, RowStep(c), walk.rowNum);
      headers := headers + SrdBytes(row);
      used := used + length;
    }
    NoHeadersLeft(c, rows, field, PlaceOf(next), used);
    assert headers == all;
    FilledIsStored(pre, room[..], srdAt, headers, wire[from..from + used]);
  }
}
