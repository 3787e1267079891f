// Examples/Common/ExampleTsStream.c: a frame as a PES packet, and what a decoder makes of it.

/**
 * The decoder reads the headers' fields and the slices in the order of ISO/IEC 13818-2,
 * section 6.2, each behind a start code on a whole byte.
 */
module TsPicture {
  import opened Arithmetic
  import opened Bits
  import opened Bytes
  import opened TsVideo
  import opened TsEncoder

  // ---------------------------------------------------------------- The decoder

  datatype Rest = NoRest | Rest(bits: seq<bool>)

  /** From the next whole byte on, zeros before it: a start code. Of total bits, these are left. */
  function ReadStartCode(total: nat, bits: seq<bool>, code: nat): (r: Rest)
    requires |bits| <= total
    ensures r.Rest? ==> |r.bits| < |bits|
  {
    var at := total - |bits|;
    var pad := WholeBytes(at) - at;
    if |bits| < pad + 32 || bits[..pad] != seq(pad, _ => false) then NoRest
    else if Number(bits[pad..pad + 24]) != 1 || Number(bits[pad + 24..pad + 32]) != code then NoRest
    else Rest(bits[pad + 32..])
  }

  datatype Fields = NoFields | Fields(values: seq<nat>, rest: seq<bool>)

  function ReadFields(bits: seq<bool>, widths: seq<nat>): (r: Fields)
    ensures r.Fields? ==> |r.rest| <= |bits|
    decreases |widths|
  {
    if widths == [] then Fields([], bits)
    else if |bits| < widths[0] then NoFields
    else
      var others := ReadFields(bits[widths[0]..], widths[1..]);
      if others == NoFields then NoFields
      else Fields([Number(bits[..widths[0]])] + others.values, others.rest)
  }

  datatype Syntax = Syntax(code: nat, widths: seq<nat>)
  datatype ReadResult = NoHeaders | Found(values: seq<seq<nat>>, rest: seq<bool>)

  function ReadHeaders(total: nat, bits: seq<bool>, syntax: seq<Syntax>): (r: ReadResult)
    requires |bits| <= total
    ensures r.Found? ==> |r.rest| <= |bits|
    decreases |syntax|
  {
    if syntax == [] then Found([], bits)
    else
      var start := ReadStartCode(total, bits, syntax[0].code);
      if start == NoRest then NoHeaders
      else
        var fields := ReadFields(start.bits, syntax[0].widths);
        if fields == NoFields then NoHeaders
        else
          var others := ReadHeaders(total, fields.rest, syntax[1..]);
          if others == NoHeaders then NoHeaders
          else Found([fields.values] + others.values, others.rest)
  }

  datatype Rows = NoRows | Rows(rows: seq<seq<seq<int>>>)

  /** Slices of a row each, from the one with this number on. */
  function ReadSlices(total: nat, bits: seq<bool>, number: nat, count: nat): Rows
    requires |bits| <= total
    decreases count
  {
    if count == 0 then Rows([])
    else
      var start := ReadStartCode(total, bits, number);
      if start == NoRest then NoRows
      else
        var fields := ReadFields(start.bits, [5, 1]);
        if fields == NoFields || fields.values[1] != 0 then NoRows
        else
          var slice := DecodeSlice(MB_COLS, [128, 128, 128], fields.rest);
          if slice == BadSlice || |slice.rest| > total then NoRows
          else
            var others := ReadSlices(total, slice.rest, number + 1, count - 1);
            if others == NoRows then NoRows else Rows([slice.values] + others.rows)
  }

  /** The headers' values, and of each macroblock the values of its six blocks. */
  datatype Picture = NoPicture | Picture(headers: seq<seq<nat>>, rows: seq<seq<seq<int>>>)

  /** The headers that a picture has before its slices. */
  const SYNTAX := [Syntax(0xB3, [12, 12, 4, 4, 18, 1, 10, 3]),
                   Syntax(0xB5, [4, 8, 1, 2, 16, 1, 8, 1, 7]),
                   Syntax(0xB8, [1, 5, 6, 1, 6, 6, 1, 1]),
                   Syntax(0x00, [10, 3, 16, 1]),
                   Syntax(0xB5, [4, 16, 2, 2, 1, 1, 5, 1, 1, 1])]

  function DecodePicture(bits: seq<bool>): Picture {
    DecodeWith(SYNTAX, bits)
  }

  function DecodeWith(syntax: seq<Syntax>, bits: seq<bool>): Picture {
    var headers := ReadHeaders(|bits|, bits, syntax);
    if headers == NoHeaders then NoPicture
    else
      var rows := ReadSlices(|bits|, headers.rest, 1, MB_ROWS);
      if rows == NoRows then NoPicture else Picture(headers.values, rows.rows)
  }

  // ---------------------------------------------------------------- Start codes and fields

  lemma StartCodeIsRead(total: nat, at: nat, p: Part, rest: seq<bool>)
    requires p.code < 256 && total == at + |PartBits(at, p)| + |rest|
    ensures ReadStartCode(total, PartBits(at, p) + rest, p.code) == Rest(p.payload + rest)
  {
    SmallPowers(8);
    Pow2Grows();
    NumberOfBits(1, 24);
    NumberOfBits(p.code, 8);
    hide BitsOf, Number, Pow2, WholeBytes;
    CodeParts(seq(WholeBytes(at) - at, _ => false), BitsOf(1, 24), BitsOf(p.code, 8), p.payload, rest);
  }

  lemma Pow2Grows()
    ensures Pow2(24) > 1
  {
    Pow2Adds(8, 16);
    Pow2Adds(8, 8);
    SmallPowers(8);
  }

  lemma CodeParts(pad: seq<bool>, a: seq<bool>, b: seq<bool>, c: seq<bool>, rest: seq<bool>)
    requires |a| == 24 && |b| == 8
    ensures var bits := pad + a + b + c + rest;
      && bits[..|pad|] == pad && bits[|pad|..|pad| + 24] == a
      && bits[|pad| + 24..|pad| + 32] == b && bits[|pad| + 32..] == c + rest
  {
  }

  predicate Fit(fields: seq<Field>) {
    forall i | 0 <= i < |fields| :: fields[i].value < Pow2(fields[i].bits)
  }

  function Widths(fields: seq<Field>): (w: seq<nat>)
    ensures |w| == |fields|
  {
    seq(|fields|, i requires 0 <= i < |fields| => fields[i].bits)
  }

  function ValuesIn(fields: seq<Field>): (v: seq<nat>)
    ensures |v| == |fields|
  {
    seq(|fields|, i requires 0 <= i < |fields| => fields[i].value)
  }

  lemma {:induction false} FieldsAreRead(fields: seq<Field>, rest: seq<bool>)
    requires Fit(fields)
    ensures ReadFields(FieldsBits(fields) + rest, Widths(fields)) == Fields(ValuesIn(fields), rest)
    decreases |fields|
  {
    hide BitsOf, Number, Pow2;
    if fields == [] {
      assert FieldsBits(fields) + rest == rest;
    } else {
      var f, others := fields[0], fields[1..];
      FirstField(fields);
      hide Fit, Widths, ValuesIn;
      FieldsAreRead(others, rest);
      NumberOfBits(f.value, f.bits);
      var first := BitsOf(f.value, f.bits);
      var bits := FieldsBits(fields) + rest;
      assert bits == first + (FieldsBits(others) + rest);
      assert bits[..f.bits] == first && bits[f.bits..] == FieldsBits(others) + rest;
      assert Widths(fields)[1..] == Widths(others);
    }
  }

  lemma FirstField(fields: seq<Field>)
    requires Fit(fields) && fields != []
    ensures Fit(fields[1..]) && fields[0].value < Pow2(fields[0].bits)
    ensures Widths(fields) == [fields[0].bits] + Widths(fields[1..])
    ensures ValuesIn(fields) == [fields[0].value] + ValuesIn(fields[1..])
  {
    hide Pow2;
  }

  // ---------------------------------------------------------------- Headers

  /** A header: its start code and its fields. */
  datatype Header = Header(code: nat, fields: seq<Field>)

  predicate AreHeaders(headers: seq<Header>) {
    forall i | 0 <= i < |headers| :: headers[i].code < 256 && Fit(headers[i].fields)
  }

  function PartOf(h: Header): Part {
    Part(h.code, FieldsBits(h.fields))
  }

  function PartsOf(headers: seq<Header>): seq<Part> {
    if headers == [] then [] else [PartOf(headers[0])] + PartsOf(headers[1..])
  }

  function SyntaxOf(headers: seq<Header>): seq<Syntax> {
    if headers == [] then []
    else [Syntax(headers[0].code, Widths(headers[0].fields))] + SyntaxOf(headers[1..])
  }

  function AllValues(headers: seq<Header>): (v: seq<seq<nat>>)
    ensures |v| == |headers|
  {
    if headers == [] then [] else [ValuesIn(headers[0].fields)] + AllValues(headers[1..])
  }

  lemma {:induction false} HeadersAreRead(total: nat, at: nat, headers: seq<Header>,
                                          rest: seq<bool>)
    requires AreHeaders(headers) && total == at + |AllBits(at, PartsOf(headers))| + |rest|
    ensures ReadHeaders(total, AllBits(at, PartsOf(headers)) + rest, SyntaxOf(headers))
         == Found(AllValues(headers), rest)
    decreases |headers|
  {
    hide Fit, PartBits, FieldsBits, ReadFields, ReadStartCode, Widths, ValuesIn;
    var parts := PartsOf(headers);
    if headers == [] {
      assert AllBits(at, parts) + rest == rest;
    } else {
      var h, others := headers[0], headers[1..];
      assert parts[0] == PartOf(h) && parts[1..] == PartsOf(others);
      var next := at + |PartBits(at, parts[0])|;
      var behind := AllBits(next, PartsOf(others)) + rest;
      assert AllBits(at, parts) + rest == PartBits(at, parts[0]) + behind;
      StartCodeIsRead(total, at, parts[0], behind);
      FieldsAreRead(h.fields, behind);
      assert AreHeaders(others);
      HeadersAreRead(total, next, others, rest);
      assert SyntaxOf(headers)[1..] == SyntaxOf(others);
    }
  }

  // ---------------------------------------------------------------- Slices

  predicate IsFramePicture(rows: seq<seq<Colour>>) {
    |rows| == MB_ROWS && IsPicture(rows) && IsWide(rows)
  }

  predicate IsWide(rows: seq<seq<Colour>>) {
    forall k | 0 <= k < |rows| :: |rows[k]| == MB_COLS
  }

  function FlatRows(rows: seq<seq<Colour>>): seq<seq<seq<int>>> {
    if rows == [] then [] else [FlatValues(rows[0])] + FlatRows(rows[1..])
  }

  lemma SliceIsRead(total: nat, at: nat, number: nat, colours: seq<Colour>, rest: seq<bool>)
    requires AreColours(colours) && |colours| == MB_COLS && number < 256
    requires total == at + |PartBits(at, Slice(number, colours))| + |rest|
    ensures var start := ReadStartCode(total, PartBits(at, Slice(number, colours)) + rest, number);
      && start.Rest?
      && var fields := ReadFields(start.bits, [5, 1]);
      && fields.Fields? && fields.values == [8, 0]
      && DecodeSlice(MB_COLS, [128, 128, 128], fields.rest) == Values(FlatValues(colours), rest)
  {
    SliceHeaderFits();
    hide Fit, PartBits, FieldsBits, ReadFields, ReadStartCode, SliceBits, DecodeSlice, FlatValues;
    hide Widths, ValuesIn, SliceHeader;
    var p := Slice(number, colours);
    var behind := SliceBits(colours, GREY) + rest;
    StartCodeIsRead(total, at, p, rest);
    assert p.payload + rest == FieldsBits(SliceHeader()) + behind;
    FieldsAreRead(SliceHeader(), behind);
    SliceRoundTrip(colours, GREY, rest);
  }

  lemma SliceHeaderFits()
    ensures Fit(SliceHeader()) && Widths(SliceHeader()) == [5, 1]
    ensures ValuesIn(SliceHeader()) == [8, 0]
  {
    SmallPowers(5);
    SmallPowers(1);
  }

  lemma {:induction false} SlicesAreRead(total: nat, at: nat, rows: seq<seq<Colour>>, k: nat,
                                         rest: seq<bool>)
    requires IsPicture(rows) && IsWide(rows) && k <= |rows| < 256
    requires total == at + |AllBits(at, Slices(rows, |rows|)[k..])| + |rest|
    ensures ReadSlices(total, AllBits(at, Slices(rows, |rows|)[k..]) + rest, k + 1, |rows| - k)
         == Rows(FlatRows(rows[k..]))
    decreases |rows| - k
  {
    hide PartBits, Slice, ReadFields, ReadStartCode, DecodeSlice, FlatValues, AreColours;
    var parts := Slices(rows, |rows|)[k..];
    if k < |rows| {
      assert parts[0] == Slice(k + 1, rows[k]) && parts[1..] == Slices(rows, |rows|)[k + 1..];
      assert AreColours(rows[k]) && |rows[k]| == MB_COLS;
      var next := at + |PartBits(at, parts[0])|;
      var behind := AllBits(next, parts[1..]) + rest;
      assert AllBits(at, parts) + rest == PartBits(at, parts[0]) + behind;
      SliceIsRead(total, at, k + 1, rows[k], behind);
      SlicesAreRead(total, next, rows, k + 1, rest);
      assert rows[k..][1..] == rows[k + 1..];
    }
  }

  // ---------------------------------------------------------------- Pictures

  function FrameHeaders(frame: nat): seq<Header> {
    [Header(0xB3, SequenceHeader()), Header(0xB5, SequenceExtension()),
     Header(0xB8, GroupHeader(frame)), Header(0x00, PictureHeader()),
     Header(0xB5, PictureExtension())]
  }

  lemma {:induction false} BitsJoin(at: nat, a: seq<Part>, b: seq<Part>)
    ensures AllBits(at, a + b) == AllBits(at, a) + AllBits(at + |AllBits(at, a)|, b)
    decreases |a|
  {
    hide PartBits;
    if a == [] {
      assert a + b == b;
      assert AllBits(at, b) == [] + AllBits(at, b);
    } else {
      assert (a + b)[0] == a[0] && (a + b)[1..] == a[1..] + b;
      BitsJoin(at + |PartBits(at, a[0])|, a[1..], b);
    }
  }

  /** A frame's headers, and the values of its macroblocks. */
  function PictureOf(rows: seq<seq<Colour>>, frame: nat): Picture {
    Picture(AllValues(FrameHeaders(frame)), FlatRows(rows))
  }

  lemma Powers()
    ensures Pow2(1) == 2 && Pow2(2) == 4 && Pow2(3) == 8 && Pow2(4) == 16 && Pow2(5) == 32
    ensures Pow2(6) == 64 && Pow2(7) == 128 && Pow2(8) == 256 && Pow2(10) == 1024
    ensures Pow2(12) == 4096 && Pow2(16) == 65536 && Pow2(18) == 262144
  {
    SmallPowers(10);
    Pow2Adds(10, 2);
    Pow2Adds(10, 6);
    Pow2Adds(16, 2);
  }

  /** Every field of the headers has room for its value, whatever the frame's number. */
  lemma HeadersFit(frame: nat)
    ensures AreHeaders(FrameHeaders(frame))
  {
    SequenceFits();
    GroupFits(frame);
    PictureFits();
    hide Fit, SequenceHeader, SequenceExtension, GroupHeader, PictureHeader, PictureExtension;
  }

  lemma SequenceFits()
    ensures Fit(SequenceHeader()) && Fit(SequenceExtension())
  {
    Powers();
    hide Pow2;
  }

  lemma GroupFits(frame: nat)
    ensures Fit(GroupHeader(frame))
  {
    Powers();
    hide Pow2;
  }

  lemma PictureFits()
    ensures Fit(PictureHeader()) && Fit(PictureExtension())
  {
    Powers();
    hide Pow2;
  }

  lemma HeadersAreParts(frame: nat)
    ensures PartsOf(FrameHeaders(frame)) == Headers(frame)
    ensures SyntaxOf(FrameHeaders(frame)) == SYNTAX
  {
    WidthsAre(frame);
    FiveParts(FrameHeaders(frame));
    FiveSyntaxes(FrameHeaders(frame));
    hide FieldsBits, Widths, PartsOf, SyntaxOf;
    hide SequenceHeader, SequenceExtension, GroupHeader, PictureHeader, PictureExtension;
  }

  lemma FiveParts(h: seq<Header>)
    requires |h| == 5
    ensures PartsOf(h) == [PartOf(h[0]), PartOf(h[1]), PartOf(h[2]), PartOf(h[3]), PartOf(h[4])]
  {
    hide PartOf;
    assert h[1..][1..] == h[2..] && h[2..][1..] == h[3..] && h[3..][1..] == h[4..];
    assert h[4..][1..] == [];
    assert PartsOf(h[4..]) == [PartOf(h[4])];
    assert PartsOf(h[3..]) == [PartOf(h[3]), PartOf(h[4])];
    assert PartsOf(h[2..]) == [PartOf(h[2]), PartOf(h[3]), PartOf(h[4])];
  }

  lemma FiveSyntaxes(h: seq<Header>)
    requires |h| == 5
    ensures SyntaxOf(h) == [Syntax(h[0].code, Widths(h[0].fields)),
                            Syntax(h[1].code, Widths(h[1].fields)),
                            Syntax(h[2].code, Widths(h[2].fields)),
                            Syntax(h[3].code, Widths(h[3].fields)),
                            Syntax(h[4].code, Widths(h[4].fields))]
  {
    hide Widths;
    assert h[1..][1..] == h[2..] && h[2..][1..] == h[3..] && h[3..][1..] == h[4..];
    assert h[4..][1..] == [];
    assert SyntaxOf(h[4..]) == [Syntax(h[4].code, Widths(h[4].fields))];
    assert SyntaxOf(h[3..]) == [Syntax(h[3].code, Widths(h[3].fields))] + SyntaxOf(h[4..]);
    assert SyntaxOf(h[2..]) == [Syntax(h[2].code, Widths(h[2].fields))] + SyntaxOf(h[3..]);
  }

  lemma WidthsAre(frame: nat)
    ensures Widths(SequenceHeader()) == SYNTAX[0].widths
    ensures Widths(SequenceExtension()) == SYNTAX[1].widths
    ensures Widths(GroupHeader(frame)) == SYNTAX[2].widths
    ensures Widths(PictureHeader()) == SYNTAX[3].widths
    ensures Widths(PictureExtension()) == SYNTAX[4].widths
  {
  }

  /** Any picture coded is decoded to its colours and its headers' fields. */
  lemma PictureRoundTrip(frame: nat, rows: seq<seq<Colour>>, rest: seq<bool>)
    requires IsFramePicture(rows)
    ensures DecodePicture(AllBits(0, Headers(frame) + Slices(rows, MB_ROWS)) + rest)
         == PictureOf(rows, frame)
  {
    HeadersFit(frame);
    HeadersAreParts(frame);
    hide AllBits, Slices, FrameHeaders, AllValues, FlatRows, ReadHeaders, ReadSlices, PartsOf;
    hide IsPicture, IsWide, SyntaxOf, AreHeaders, Headers;
    var headers, slices := Headers(frame), Slices(rows, MB_ROWS);
    var first := AllBits(0, headers);
    var behind := AllBits(|first|, slices) + rest;
    BitsJoin(0, headers, slices);
    var bits := AllBits(0, headers + slices) + rest;
    assert bits == first + behind;
    HeadersAreRead(|bits|, 0, FrameHeaders(frame), behind);
    assert Slices(rows, |rows|)[0..] == slices && rows[0..] == rows;
    SlicesAreRead(|bits|, |first|, rows, 0, rest);
  }

  /** Hours, minutes, seconds and pictures of the group's header are the frame's, of each day. */
  lemma TimeCodeIsFrame(frame: nat)
    ensures var v := AllValues(FrameHeaders(frame))[2];
      |v| == 8 && ((v[1] * 60 + v[2]) * 60 + v[4]) * 25 + v[5] == frame % (25 * 86400)
  {
    hide SequenceHeader, SequenceExtension, PictureHeader, PictureExtension;
    var h := FrameHeaders(frame);
    assert h[1..][1..] == h[2..];
    assert AllValues(h)[2] == AllValues(h[1..])[1] == AllValues(h[2..])[0]
        == ValuesIn(GroupHeader(frame));
    TimeCode(frame);
  }

  /**
   * The headers tell of 720 by 576 pixels in macroblocks of 16, 4:3, 25 frames a second and
   * 15 Mbit/s in units of 400; of progressive 4:2:0 video of main profile at main level without
   * B pictures; and of an I picture that is a whole progressive frame, with DC in 8 bits.
   */
  lemma HeadersTell(frame: nat)
    ensures var v := AllValues(FrameHeaders(frame));
      && v[0] == [16 * MB_COLS, 16 * MB_ROWS, 2, 3, 15_000_000 / 400, 1, 112, 0]
      && v[1] == [1, 0x48, 1, 1, 0, 1, 0, 1, 0] && v[3] == [0, 1, 0xFFFF, 0]
      && v[4] == [8, 0xFFFF, 0, 3, 0, 1, 0, 1, 1, 0]
  {
    hide SequenceHeader, SequenceExtension, GroupHeader, PictureHeader, PictureExtension, ValuesIn;
    FiveValues(FrameHeaders(frame));
    HeaderValues();
  }

  lemma FiveValues(h: seq<Header>)
    requires |h| == 5
    ensures forall i | 0 <= i < 5 :: AllValues(h)[i] == ValuesIn(h[i].fields)
  {
    hide ValuesIn;
    assert AllValues(h)[0] == ValuesIn(h[0].fields);
    assert AllValues(h)[1] == AllValues(h[1..])[0] == ValuesIn(h[1].fields);
    assert h[1..][1..] == h[2..] && h[2..][1..] == h[3..] && h[3..][1..] == h[4..];
    assert AllValues(h)[2] == AllValues(h[2..])[0] && AllValues(h)[3] == AllValues(h[3..])[0];
    assert AllValues(h)[4] == AllValues(h[4..])[0];
  }

  lemma HeaderValues()
    ensures ValuesIn(SequenceHeader()) == [720, 576, 2, 3, 37_500, 1, 112, 0]
    ensures ValuesIn(SequenceExtension()) == [1, 0x48, 1, 1, 0, 1, 0, 1, 0]
    ensures ValuesIn(PictureHeader()) == [0, 1, 0xFFFF, 0]
    ensures ValuesIn(PictureExtension()) == [8, 0xFFFF, 0, 3, 0, 1, 0, 1, 1, 0]
  {
  }

  lemma TimeCode(frame: nat)
    ensures ((frame / (25 * 3600) % 24 * 60 + frame / (25 * 60) % 60) * 60 + frame / 25 % 60) * 25
            + frame % 25
         == frame % (25 * 86400)
  {
    DivDiv(frame, 25, 60);
    DivDiv(frame, 1500, 60);
    DivDiv(frame, 90000, 24);
    var second, minute, hour, day := frame / 25, frame / 1500, frame / 90000, frame / 2160000;
    assert frame == 25 * second + frame % 25 && second == 60 * minute + second % 60;
    assert minute == 60 * hour + minute % 60 && hour == 24 * day + hour % 24;
  }

  // ---------------------------------------------------------------- PES packets

  const ES_CAPACITY: nat := 14 + PICTURE_CAPACITY

  /** The time a frame is presented at, in periods of 90 kHz: half a second after it is sent. */
  function PresentationTime(frame: nat): nat {
    frame * (90000 / 25) + 45000
  }

  /** The same in 33 bits. */
  function Pts(frame: nat): (t: bv64)
    ensures t < 0x2_0000_0000
  {
    (PresentationTime(frame) % W64) as bv64 & 0x1_FFFF_FFFF
  }

  /** The first frame is presented after half a second, and each other 40 ms behind the last. */
  lemma TimesGoOn(frame: nat)
    ensures PresentationTime(0) * 1000 == 90_000 * 500
    ensures (PresentationTime(frame + 1) - PresentationTime(frame)) * 1000 == 90_000 * 40
  {
  }

  /** A PES packet's header with a presentation time in it. */
  function PesHeader(pts: bv64): (h: seq<Byte>)
    ensures |h| == 14
  {
    [0x00, 0x00, 0x01, 0xE0, 0x00, 0x00, 0x84, 0x80, 5] + TimeBytes(pts)
  }

  function TimeBytes(t: bv64): (s: seq<Byte>)
    ensures |s| == 5
  {
    [(0x21 | ((t >> 29) & 0x0E)) as bv8, ((t >> 22) & 0xFF) as bv8,
     (0x01 | ((t >> 14) & 0xFE)) as bv8, ((t >> 7) & 0xFF) as bv8,
     (0x01 | ((t << 1) & 0xFE)) as bv8]
  }

  datatype Pes = NoPes | Pes(pts: bv64, payload: seq<Byte>)

  /** ISO/IEC 13818-1, section 2.4.3.7: the time is in three parts, each before a marker bit. */
  function DecodePes(s: seq<Byte>): Pes {
    if |s| < 14 || s[..4] != [0x00, 0x00, 0x01, 0xE0] || s[7] & 0xC0 != 0x80 then NoPes
    else if !HasMarkers(s[9], s[11], s[13]) || |s| < 9 + Value(s[8]) then NoPes
    else Pes(PtsIn(s[9], s[10], s[11], s[12], s[13]), s[9 + Value(s[8])..])
  }

  predicate HasMarkers(a: Byte, c: Byte, e: Byte) {
    a & 0xF1 == 0x21 && c & 1 == 1 && e & 1 == 1
  }

  function PtsIn(a: Byte, b: Byte, c: Byte, d: Byte, e: Byte): bv64 {
    (((a >> 1) & 0x07) as bv64 << 30) | (b as bv64 << 22) | ((c >> 1) as bv64 << 15)
    | (d as bv64 << 7) | (e >> 1) as bv64
  }

  lemma PtsBits(t: bv64)
    requires t < 0x2_0000_0000
    ensures var s := TimeBytes(t);
      HasMarkers(s[0], s[2], s[4]) && PtsIn(s[0], s[1], s[2], s[3], s[4]) == t
  {
  }

  lemma PesParts(time: seq<Byte>, payload: seq<Byte>)
    requires |time| == 5 && HasMarkers(time[0], time[2], time[4])
    ensures DecodePes([0x00, 0x00, 0x01, 0xE0, 0x00, 0x00, 0x84, 0x80, 5] + time + payload)
         == Pes(PtsIn(time[0], time[1], time[2], time[3], time[4]), payload)
  {
    hide HasMarkers, PtsIn;
    var s := [0x00, 0x00, 0x01, 0xE0, 0x00, 0x00, 0x84, 0x80, 5] + time + payload;
    assert s[..4] == [0x00, 0x00, 0x01, 0xE0] && s[14..] == payload;
  }

  /** A PES packet is read back: its time and its payload. */
  lemma PesRoundTrip(pts: bv64, payload: seq<Byte>)
    requires pts < 0x2_0000_0000
    ensures DecodePes(PesHeader(pts) + payload) == Pes(pts, payload)
  {
    hide HasMarkers, PtsIn, TimeBytes, DecodePes;
    PtsBits(pts);
    PesParts(TimeBytes(pts), payload);
  }

  /** The bits of bytes, each most significant first. */
  function BitsIn(s: seq<Byte>): seq<bool> {
    BufferBits(s, 8 * |s|)
  }

  // The bytes that bits written are in: zeros fill the last.
  lemma WholeBuffer(buf: seq<Byte>, bits: nat, size: nat)
    requires bits <= 8 * size && size <= |buf| && IsClear(buf, bits)
    ensures BitsIn(buf[..size]) == BufferBits(buf, bits) + seq(8 * size - bits, _ => false)
  {
    hide BitAt;
    assert forall i | 0 <= i < 8 * size :: BitOfBuffer(buf[..size], i) == BitOfBuffer(buf, i);
    hide BitOfBuffer;
  }

  /** A PES packet of a frame: a decoder gets its time, headers and colours from it. */
  ghost predicate ShowsFrame(unit: seq<Byte>, frame: nat, rows: seq<seq<Colour>>) {
    var pes := DecodePes(unit);
    pes.Pes? && pes.pts == Pts(frame) && DecodePicture(BitsIn(pes.payload)) == PictureOf(rows, frame)
  }

  /** The PES packet of a frame, in the capacity that is given for it. */
  method CodeFrame(rows: seq<seq<Colour>>, frame: nat) returns (es: seq<Byte>)
    requires IsFramePicture(rows)
    ensures 14 <= |es| <= ES_CAPACITY && ShowsFrame(es, frame, rows)
  {
    hide DecodePicture, BufferBits, BitsIn, AllBits, IsClear, IsPicture, Headers, Slices;
    hide DecodePes, PesHeader, PictureOf;
    var w := new BitWriter(PICTURE_CAPACITY);
    var size := EncodePicture(w, rows, frame);
    WholeBuffer(w.buf[..], w.bits, size);
    PictureRoundTrip(frame, rows, seq(8 * size - w.bits, _ => false));
    PesRoundTrip(Pts(frame), w.buf[..size]);
    es := PesHeader(Pts(frame)) + w.buf[..size];
  }
}
