// Examples/Common/ExampleTsStream.c: the loops that code a picture into the buffer.

module TsEncoder {
  import opened Arithmetic
  import opened Bits
  import opened TsVideo

  /** One block: the difference from the block before it, and the end of block. */
  method PutBlock(w: BitWriter, value: nat, pred: nat, luma: bool) returns (next: nat)
    requires w.Valid() && value <= 255 && pred <= 255 && w.bits + 18 <= 8 * w.buf.Length
    modifies w`bits, w.buf
    ensures w.Valid() && next == value
    ensures w.Contents() == old(w.Contents()) + BlockBits(value - pred, luma)
  {
    hide BitsOf, BufferBits, IsClear, SizeOf;
    var diff := value - pred;
    BlockIsSmall(diff, luma);
    DiffFits(diff);
    SizeIsSmall(Magnitude(diff));
    ghost var start := w.Contents();
    next := value;
    var size := CountBits(if diff < 0 then -diff else diff);
    var code := SizeCode(luma, size);
    w.Put(code.value, code.length);
    if size > 0 {
      w.Put(if diff > 0 then diff else diff + Pow2(size) - 1, size);
    }
    w.Put(0x2, 2);
    TwoBits(2);
    Joined(start, BitsOf(code.value, code.length), ValueBits(diff), [true, false]);
  }

  lemma Joined(a: seq<bool>, b: seq<bool>, c: seq<bool>, d: seq<bool>)
    ensures a + b + c + d == a + (b + c + d)
    ensures c == [] ==> a + b + d == a + (b + c + d)
  {
  }

  method CountBits(magnitude: nat) returns (size: nat)
    ensures size == SizeOf(magnitude)
  {
    var left := magnitude;
    size := 0;
    while left != 0
      invariant size + SizeOf(left) == SizeOf(magnitude)
    {
      left := left / 2;
      size := size + 1;
    }
  }

  /** A macroblock of one colour. */
  method PutMacroblock(w: BitWriter, c: Colour, pred: Colour)
    requires w.Valid() && IsColour(c) && IsColour(pred)
    requires w.bits + MACROBLOCK_BITS <= 8 * w.buf.Length
    modifies w`bits, w.buf
    ensures w.Valid() && w.Contents() == old(w.Contents()) + MacroblockBits(c, pred)
  {
    hide BitsOf, BufferBits, IsClear, BlockBits, BlocksBits;
    ghost var start := w.Contents();
    ghost var diffs := MacroblockDiffs(c, pred);
    w.Put(1, 1);
    w.Put(1, 1);
    OneBit();
    assert w.Contents() == start + [true, true];
    BlocksAreSix(diffs);
    BlockIsSmall(diffs[0].diff, true);
    BlockIsSmall(0, true);
    BlockIsSmall(diffs[4].diff, false);
    var y := pred.y;
    ghost var blocks := [];
    for b := 0 to 4
      invariant w.Valid() && y == (if b == 0 then pred.y else c.y)
      invariant w.bits <= old(w.bits) + 2 + 17 * b
      invariant w.Contents() == start + [true, true] + blocks
      invariant blocks == FourBlocks(diffs, b)
    {
      y := PutBlock(w, c.y, y, true);
      blocks := blocks + BlockBits(diffs[b].diff, true);
    }
    var cb := PutBlock(w, c.cb, pred.cb, false);
    var cr := PutBlock(w, c.cr, pred.cr, false);
    LastJoined(start, blocks, BlockBits(diffs[4].diff, false), BlockBits(diffs[5].diff, false));
  }

  lemma LastJoined(start: seq<bool>, blocks: seq<bool>, cb: seq<bool>, cr: seq<bool>)
    ensures start + [true, true] + blocks + cb + cr == start + ([true, true] + (blocks + cb + cr))
  {
  }

  lemma OneBit()
    ensures BitsOf(1, 1) == [true]
  {
  }

  // The first blocks of a macroblock.
  function FourBlocks(diffs: seq<Diff>, n: nat): seq<bool>
    requires AreDiffs(diffs) && n <= |diffs|
  {
    if n == 0 then [] else FourBlocks(diffs, n - 1) + BlockBits(diffs[n - 1].diff, true)
  }

  lemma BlocksAreSix(diffs: seq<Diff>)
    requires |diffs| == 6 && AreDiffs(diffs)
    requires diffs[0].luma && diffs[1].luma && diffs[2].luma && diffs[3].luma
    requires !diffs[4].luma && !diffs[5].luma
    ensures BlocksBits(diffs)
         == FourBlocks(diffs, 4) + BlockBits(diffs[4].diff, false) + BlockBits(diffs[5].diff, false)
  {
    hide BlockBits;
    assert diffs[1..][1..] == diffs[2..] && diffs[2..][1..] == diffs[3..];
    assert diffs[3..][1..] == diffs[4..] && diffs[4..][1..] == diffs[5..] && diffs[5..][1..] == [];
    var a, b, c := BlockBits(diffs[0].diff, true), BlockBits(diffs[1].diff, true),
                   BlockBits(diffs[2].diff, true);
    var d, e, f := BlockBits(diffs[3].diff, true), BlockBits(diffs[4].diff, false),
                   BlockBits(diffs[5].diff, false);
    assert BlocksBits(diffs[5..]) == f + [];
    assert BlocksBits(diffs[4..]) == e + (f + []);
    assert BlocksBits(diffs[3..]) == d + (e + (f + []));
    assert BlocksBits(diffs[2..]) == c + (d + (e + (f + [])));
    assert BlocksBits(diffs[1..]) == b + (c + (d + (e + (f + []))));
    assert BlocksBits(diffs) == a + (b + (c + (d + (e + (f + [])))));
    assert FourBlocks(diffs, 1) == [] + a;
    assert FourBlocks(diffs, 2) == [] + a + b && FourBlocks(diffs, 3) == [] + a + b + c;
    assert FourBlocks(diffs, 4) == [] + a + b + c + d;
    SixJoined(a, b, c, d, e, f);
  }

  lemma SixJoined(a: seq<bool>, b: seq<bool>, c: seq<bool>, d: seq<bool>, e: seq<bool>,
                  f: seq<bool>)
    ensures a + (b + (c + (d + (e + (f + []))))) == [] + a + b + c + d + e + f
  {
  }

  // ---------------------------------------------------------------- Slices and pictures

  /** A start code, and the bits behind it. */
  datatype Part = Part(code: nat, payload: seq<bool>)

  /** A part from the next whole byte on, when at bits are before it. */
  function PartBits(at: nat, p: Part): (s: seq<bool>)
    ensures |s| == WholeBytes(at) - at + 32 + |p.payload|
  {
    seq(WholeBytes(at) - at, _ => false) + BitsOf(0x000001, 24) + BitsOf(p.code, 8) + p.payload
  }

  /** Parts one behind the other. */
  function AllBits(at: nat, parts: seq<Part>): seq<bool>
    decreases |parts|
  {
    if parts == [] then []
    else
      var first := PartBits(at, parts[0]);
      first + AllBits(at + |first|, parts[1..])
  }

  lemma {:induction false} OneMorePart(at: nat, parts: seq<Part>, p: Part)
    ensures AllBits(at, parts + [p])
         == AllBits(at, parts) + PartBits(at + |AllBits(at, parts)|, p)
    decreases |parts|
  {
    hide PartBits;
    if parts == [] {
      assert (parts + [p])[1..] == [];
      assert AllBits(at, parts + [p]) == PartBits(at, p) + [];
    } else {
      assert (parts + [p])[1..] == parts[1..] + [p];
      OneMorePart(at + |PartBits(at, parts[0])|, parts[1..], p);
    }
  }

  predicate IsPicture(rows: seq<seq<Colour>>) {
    forall k | 0 <= k < |rows| :: AreColours(rows[k])
  }

  /** A row of macroblocks, at quantiser scale 8. */
  function Slice(number: nat, colours: seq<Colour>): Part
    requires AreColours(colours)
  {
    Part(number, FieldsBits(SliceHeader()) + SliceBits(colours, GREY))
  }

  function SliceHeader(): seq<Field> {
    [Field(8, 5), Field(0, 1)]
  }

  /** The slices of the first n rows. */
  function Slices(rows: seq<seq<Colour>>, n: nat): (parts: seq<Part>)
    requires IsPicture(rows) && n <= |rows|
    ensures |parts| == n && forall k | 0 <= k < n :: parts[k] == Slice(k + 1, rows[k])
  {
    if n == 0 then [] else Slices(rows, n - 1) + [Slice(n, rows[n - 1])]
  }

  // A slice of so many macroblocks.
  method PutSlice(w: BitWriter, number: nat, colours: seq<Colour>)
    requires w.Valid() && AreColours(colours)
    requires WholeBytes(w.bits) + 38 + 106 * |colours| + 12 <= 8 * w.buf.Length
    modifies w`bits, w.buf
    ensures w.Valid()
    ensures w.Contents() == old(w.Contents()) + PartBits(old(w.bits), Slice(number, colours))
    ensures w.bits <= WholeBytes(old(w.bits)) + 38 + 106 * |colours|
  {
    hide BitsOf, BufferBits, IsClear, MacroblockBits, SliceBits, WholeBytes, AreColours, IsColour;
    hide FieldsBits;
    SliceHeaderBits();
    w.PutStartCode(number);
    w.Put(8, 5);
    w.Put(0, 1);
    ghost var start := w.Contents();
    var at := w.bits;
    GreyIsColour();
    NoColours();
    assert colours[..0] == [];
    for col := 0 to |colours|
      invariant w.Valid() && AreColours(colours[..col])
      invariant w.Contents() == start + SliceBits(colours[..col], GREY)
      invariant w.bits <= at + 106 * col
    {
      ghost var before := w.Contents();
      var pred := if col == 0 then GREY else colours[col - 1];
      NextMacroblock(colours, col);
      MacroblockIsSmall(colours[col], pred);
      PutMacroblock(w, colours[col], pred);
      assert start + (SliceBits(colours[..col], GREY) + MacroblockBits(colours[col], pred))
          == start + SliceBits(colours[..col], GREY) + MacroblockBits(colours[col], pred);
    }
    assert colours[..|colours|] == colours;
    SliceJoined(old(w.Contents()), old(w.bits), number, BitsOf(8, 5), BitsOf(0, 1),
                SliceBits(colours, GREY));
  }

  lemma SliceHeaderBits()
    ensures FieldsBits(SliceHeader()) == BitsOf(8, 5) + BitsOf(0, 1)
  {
    hide BitsOf;
    assert SliceHeader()[1..][1..] == [];
  }

  lemma SliceJoined(start: seq<bool>, at: nat, number: nat, a: seq<bool>, b: seq<bool>,
                    c: seq<bool>)
    ensures start + seq(WholeBytes(at) - at, _ => false) + BitsOf(0x000001, 24)
            + BitsOf(number, 8) + a + b + c
         == start + PartBits(at, Part(number, a + b + c))
  {
    hide BitsOf, WholeBytes;
  }

  lemma GreyIsColour()
    ensures IsColour(GREY)
  {
  }

  lemma NoColours()
    ensures AreColours([]) && SliceBits([], GREY) == []
  {
  }

  // One more macroblock of a slice.
  lemma NextMacroblock(colours: seq<Colour>, col: nat)
    requires AreColours(colours) && col < |colours|
    ensures var pred := if col == 0 then GREY else colours[col - 1];
      && IsColour(pred) && IsColour(colours[col])
      && AreColours(colours[..col]) && AreColours(colours[..col + 1])
      && SliceBits(colours[..col + 1], GREY)
         == SliceBits(colours[..col], GREY) + MacroblockBits(colours[col], pred)
  {
    assert IsColour(colours[col]);
    if col > 0 {
      assert IsColour(colours[col - 1]);
    }
    GreyIsColour();
    hide MacroblockBits, IsColour;
    assert colours[..col + 1] == colours[..col] + [colours[col]];
    SliceGrows(colours[..col], GREY, colours[col]);
  }

  lemma {:induction false} SliceGrows(colours: seq<Colour>, pred: Colour, c: Colour)
    requires AreColours(colours) && IsColour(pred) && IsColour(c)
    ensures AreColours(colours + [c])
    ensures var last := if colours == [] then pred else colours[|colours| - 1];
      IsColour(last)
      && SliceBits(colours + [c], pred) == SliceBits(colours, pred) + MacroblockBits(c, last)
    decreases |colours|
  {
    hide MacroblockBits, IsColour;
    if colours == [] {
      assert (colours + [c])[1..] == [];
      assert SliceBits(colours + [c], pred) == MacroblockBits(c, pred) + [];
    } else {
      assert IsColour(colours[0]);
      assert (colours + [c])[1..] == colours[1..] + [c] && (colours + [c])[0] == colours[0];
      SliceGrows(colours[1..], colours[0], c);
    }
  }

  // ---------------------------------------------------------------- Headers

  /** The headers of a picture, with the frame's time code. */
  method PutHeaders(w: BitWriter, frame: nat)
    requires w.Valid() && w.bits == 0 && PICTURE_CAPACITY <= w.buf.Length
    modifies w`bits, w.buf
    ensures w.Valid() && w.bits <= 8 * 47 && w.Contents() == AllBits(0, Headers(frame))
  {
    hide FieldsSize, FieldsBits, BufferBits, IsClear, PartBits, AllBits;
    hide SequenceHeader, SequenceExtension, GroupHeader, PictureHeader, PictureExtension;
    ghost var headers := Headers(frame);
    NoParts();
    assert headers[..0] == [] && headers[..5] == headers;
    SequenceHeaderSize();
    PutNextHeader(w, headers, 0, 0xB3, SequenceHeader());
    SequenceExtensionSize();
    PutNextHeader(w, headers, 1, 0xB5, SequenceExtension());
    GroupHeaderSize(frame);
    PutNextHeader(w, headers, 2, 0xB8, GroupHeader(frame));
    PictureHeaderSize();
    PutNextHeader(w, headers, 3, 0x00, PictureHeader());
    PictureExtensionSize();
    PutNextHeader(w, headers, 4, 0xB5, PictureExtension());
  }

  // A header behind those before it.
  method PutNextHeader(w: BitWriter, ghost headers: seq<Part>, ghost k: nat, code: nat,
                       fields: seq<Field>)
    requires w.Valid() && WholeBytes(w.bits) + 32 + FieldsSize(fields) <= 8 * w.buf.Length
    requires k < |headers| && headers[k] == Part(code, FieldsBits(fields))
    requires w.Contents() == AllBits(0, headers[..k])
    modifies w`bits, w.buf
    ensures w.Valid() && w.bits == WholeBytes(old(w.bits)) + 32 + FieldsSize(fields)
    ensures w.Contents() == AllBits(0, headers[..k + 1])
  {
    hide FieldsBits, FieldsSize, AllBits, PartBits, BufferBits, IsClear;
    NextPart(headers, k);
    PutHeader(w, code, fields);
  }

  function Headers(frame: nat): seq<Part> {
    [Part(0xB3, FieldsBits(SequenceHeader())), Part(0xB5, FieldsBits(SequenceExtension())),
     Part(0xB8, FieldsBits(GroupHeader(frame))), Part(0x00, FieldsBits(PictureHeader())),
     Part(0xB5, FieldsBits(PictureExtension()))]
  }

  lemma NoParts()
    ensures AllBits(0, []) == []
  {
  }

  // One more part.
  lemma NextPart(parts: seq<Part>, k: nat)
    requires k < |parts|
    ensures AllBits(0, parts[..k + 1])
         == AllBits(0, parts[..k]) + PartBits(|AllBits(0, parts[..k])|, parts[k])
  {
    hide PartBits;
    assert parts[..k + 1] == parts[..k] + [parts[k]];
    OneMorePart(0, parts[..k], parts[k]);
  }

  /** A field of a header: its value, and how many bits it takes. */
  datatype Field = Field(value: nat, bits: nat)

  function FieldsSize(fields: seq<Field>): nat {
    if fields == [] then 0 else fields[0].bits + FieldsSize(fields[1..])
  }

  function FieldsBits(fields: seq<Field>): (s: seq<bool>)
    ensures |s| == FieldsSize(fields)
  {
    if fields == [] then [] else BitsOf(fields[0].value, fields[0].bits) + FieldsBits(fields[1..])
  }

  // The fields behind a start code.
  method PutHeader(w: BitWriter, code: nat, fields: seq<Field>)
    requires w.Valid() && WholeBytes(w.bits) + 32 + FieldsSize(fields) <= 8 * w.buf.Length
    modifies w`bits, w.buf
    ensures w.Valid() && w.bits == WholeBytes(old(w.bits)) + 32 + FieldsSize(fields)
    ensures w.Contents()
         == old(w.Contents()) + PartBits(old(w.bits), Part(code, FieldsBits(fields)))
  {
    hide BitsOf, BufferBits, IsClear, WholeBytes;
    w.PutStartCode(code);
    ghost var start := w.Contents();
    assert fields[0..] == fields;
    for i := 0 to |fields|
      invariant w.Valid()
      invariant w.bits + FieldsSize(fields[i..]) == WholeBytes(old(w.bits)) + 32 + FieldsSize(fields)
      invariant w.Contents() + FieldsBits(fields[i..]) == start + FieldsBits(fields)
    {
      assert fields[i..][1..] == fields[i + 1..];
      w.Put(fields[i].value, fields[i].bits);
    }
    assert fields[|fields|..] == [];
    assert w.Contents() == start + FieldsBits(fields);
    PartJoined(old(w.Contents()), old(w.bits), code, FieldsBits(fields));
  }

  lemma PartJoined(start: seq<bool>, at: nat, code: nat, payload: seq<bool>)
    ensures start + seq(WholeBytes(at) - at, _ => false) + BitsOf(0x000001, 24)
            + BitsOf(code, 8) + payload
         == start + PartBits(at, Part(code, payload))
  {
    hide BitsOf, WholeBytes;
  }

  function SequenceHeader(): seq<Field> {
    [Field(720, 12), Field(576, 12), Field(2, 4), Field(3, 4), Field(37500, 18), Field(1, 1),
     Field(112, 10), Field(0, 3)]
  }

  function SequenceExtension(): seq<Field> {
    [Field(1, 4), Field(0x48, 8), Field(1, 1), Field(1, 2), Field(0, 16), Field(1, 1),
     Field(0, 8), Field(1, 1), Field(0, 7)]
  }

  function GroupHeader(frame: nat): seq<Field> {
    [Field(0, 1), Field(frame / (25 * 3600) % 24, 5), Field(frame / (25 * 60) % 60, 6),
     Field(1, 1), Field(frame / 25 % 60, 6), Field(frame % 25, 6), Field(1, 1), Field(0, 1)]
  }

  function PictureHeader(): seq<Field> {
    [Field(0, 10), Field(1, 3), Field(0xFFFF, 16), Field(0, 1)]
  }

  function PictureExtension(): seq<Field> {
    [Field(8, 4), Field(0xFFFF, 16), Field(0, 2), Field(3, 2), Field(0, 1), Field(1, 1),
     Field(0, 5), Field(1, 1), Field(1, 1), Field(0, 1)]
  }

  lemma SequenceHeaderSize()
    ensures FieldsSize(SequenceHeader()) == 64
  {
    SumOfEight(SequenceHeader());
  }

  lemma SequenceExtensionSize()
    ensures FieldsSize(SequenceExtension()) == 48
  {
    SumOfEight(SequenceExtension());
    assert FieldsSize(SequenceExtension()[8..]) == 7;
  }

  lemma GroupHeaderSize(frame: nat)
    ensures FieldsSize(GroupHeader(frame)) == 27
  {
    SumOfEight(GroupHeader(frame));
  }

  lemma PictureHeaderSize()
    ensures FieldsSize(PictureHeader()) == 30
  {
    SumOfFour(PictureHeader());
  }

  lemma PictureExtensionSize()
    ensures FieldsSize(PictureExtension()) == 34
  {
    SumOfEight(PictureExtension());
    assert FieldsSize(PictureExtension()[8..][1..]) == 1;
  }

  lemma SumOfFour(f: seq<Field>)
    requires |f| >= 4
    ensures FieldsSize(f) == f[0].bits + f[1].bits + f[2].bits + f[3].bits + FieldsSize(f[4..])
  {
    assert f[1..][1..] == f[2..] && f[2..][1..] == f[3..] && f[3..][1..] == f[4..];
    assert FieldsSize(f[2..]) == f[2].bits + (f[3].bits + FieldsSize(f[4..]));
  }

  lemma SumOfEight(f: seq<Field>)
    requires |f| >= 8
    ensures FieldsSize(f) == f[0].bits + f[1].bits + f[2].bits + f[3].bits + f[4].bits + f[5].bits
                            + f[6].bits + f[7].bits + FieldsSize(f[8..])
    ensures |f| == 8 ==> FieldsSize(f[8..]) == 0
  {
    SumOfFour(f);
    SumOfFour(f[4..]);
    assert f[4..][4..] == f[8..];
  }

  /**
   * A picture of any colours, in the capacity that is given for it: its headers and slices
   * one behind the other, each from a whole byte on.
   */
  method EncodePicture(w: BitWriter, rows: seq<seq<Colour>>, frame: nat) returns (size: nat)
    requires w.Valid() && w.bits == 0 && PICTURE_CAPACITY <= w.buf.Length
    requires |rows| == MB_ROWS && IsPicture(rows)
    requires forall k | 0 <= k < |rows| :: |rows[k]| == MB_COLS
    modifies w`bits, w.buf
    ensures w.Valid() && w.Contents() == AllBits(0, Headers(frame) + Slices(rows, MB_ROWS))
    ensures size == WholeBytes(w.bits) / 8 <= PICTURE_CAPACITY
  {
    hide BufferBits, IsClear, Slice, AreColours, Headers, PartBits, AllBits;
    PutHeaders(w, frame);
    assert Headers(frame) + Slices(rows, 0) == Headers(frame);
    for row := 0 to MB_ROWS
      invariant w.Valid() && w.Contents() == AllBits(0, Headers(frame) + Slices(rows, row))
      invariant w.bits <= 8 * (47 + row * 670)
    {
      assert AreColours(rows[row]);
      PutSlice(w, row + 1, rows[row]);
      OneMorePart(0, Headers(frame) + Slices(rows, row), Slice(row + 1, rows[row]));
      assert Headers(frame) + Slices(rows, row) + [Slice(row + 1, rows[row])]
          == Headers(frame) + Slices(rows, row + 1);
    }
    size := (w.bits + 7) / 8;
  }
}
