// Examples/Common/ExampleTsStream.c: MPEG-2 pictures of flat macroblocks, bit by bit.

/**
 * A macroblock of one colour codes only the DC coefficient of each of its six blocks, as the
 * difference from the block before it of the same component (ISO/IEC 13818-2, section 7.2.1).
 * The decoder here is written from the tables of that standard, not from the encoder's.
 */
module TsVideo {
  import opened Arithmetic
  import opened Bits
  import opened Bytes

  // ---------------------------------------------------------------- The writer

  /** Bit k of a byte, most significant first. */
  predicate BitAt(b: Byte, k: nat)
    requires k < 8
  {
    (b & Mask(k)) != 0
  }

  function Mask(k: nat): Byte
    requires k < 8
  {
    0x80 >> k
  }

  lemma MasksAreDistinct(b: Byte, j: nat, k: nat)
    requires j < 8 && k < 8
    ensures BitAt(b | Mask(j), k) <==> k == j || BitAt(b, k)
  {
    MaskIs(j);
    MaskIs(k);
    hide Mask;
  }

  lemma MaskIs(k: nat)
    requires k < 8
    ensures Mask(k) == match k case 0 => 0x80 case 1 => 0x40 case 2 => 0x20 case 3 => 0x10
                               case 4 => 8 case 5 => 4 case 6 => 2 case 7 => 1
  {
  }

  predicate BitOfBuffer(buf: seq<Byte>, i: nat)
    requires i < 8 * |buf|
  {
    BitAt(buf[i / 8], i % 8)
  }

  /** The first n bits of a buffer. */
  function BufferBits(buf: seq<Byte>, n: nat): (s: seq<bool>)
    requires n <= 8 * |buf|
    ensures |s| == n
  {
    seq(n, i requires 0 <= i < n => BitOfBuffer(buf, i))
  }

  /** No bit is set from bit number from on. */
  ghost predicate IsClear(buf: seq<Byte>, from: nat) {
    forall i | from <= i < 8 * |buf| :: !BitOfBuffer(buf, i)
  }

  /** Writes bits behind those written, into a buffer that was cleared. */
  class BitWriter {
    const buf: array<Byte>
    var bits: nat

    ghost predicate Valid()
      reads this, buf
    {
      bits <= 8 * buf.Length && IsClear(buf[..], bits)
    }

    /** The bits written. */
    ghost function Contents(): (s: seq<bool>)
      requires Valid()
      reads this, buf
      ensures |s| == bits
    {
      BufferBits(buf[..], bits)
    }

    constructor (capacity: nat)
      ensures Valid() && fresh(buf) && buf.Length == capacity && Contents() == []
    {
      buf := new Byte[capacity](_ => 0);
      bits := 0;
      new;
      NothingIsSet(buf[..]);
    }

    // One more bit.
    method PutBit(bit: bool)
      requires Valid() && bits < 8 * buf.Length
      modifies this`bits, buf
      ensures Valid() && Contents() == old(Contents()) + [bit]
    {
      hide BufferBits, IsClear, WithBit;
      NextBit(buf[..], bits, bit);
      if bit {
        SetBit(bits);
      }
      bits := bits + 1;
    }

    method SetBit(i: nat)
      requires i < 8 * buf.Length
      modifies buf
      ensures buf[..] == WithBit(old(buf[..]), i)
    {
      hide Mask;
      buf[i / 8] := buf[i / 8] | Mask(i % 8);
    }

    /** Zero bits up to a whole byte, and a start code. */
    method PutStartCode(code: nat)
      requires Valid() && WholeBytes(bits) + 32 <= 8 * buf.Length
      modifies this`bits, buf
      ensures Valid() && bits == WholeBytes(old(bits)) + 32
      ensures Contents() == old(Contents()) + seq(WholeBytes(old(bits)) - old(bits), _ => false)
                            + BitsOf(0x000001, 24) + BitsOf(code, 8)
    {
      hide BitsOf, BufferBits, IsClear;
      Skipped(buf[..], bits, WholeBytes(bits));
      bits := (bits + 7) / 8 * 8;
      Put(0x000001, 24);
      Put(code, 8);
    }

    /** Writes the value modulo 2^n. */
    method Put(value: nat, n: nat)
      requires Valid() && bits + n <= 8 * buf.Length
      modifies this`bits, buf
      ensures Valid() && Contents() == old(Contents()) + BitsOf(value, n)
      ensures bits == old(bits) + n
    {
      hide BitsOf, BufferBits, IsClear;
      ghost var start := Contents();
      var i: nat := n;
      assert BitsOf(value, n)[..0] == [];
      while i > 0
        invariant i <= n && Valid() && bits == old(bits) + n - i
        invariant Contents() == start + BitsOf(value, n)[..n - i]
        decreases i
      {
        i := i - 1;
        BitIs(value, n, n - 1 - i);
        PutBit(value / Pow2(i) % 2 == 1);
        assert BitsOf(value, n)[..n - i]
            == BitsOf(value, n)[..n - i - 1] + [BitsOf(value, n)[n - i - 1]];
      }
      assert BitsOf(value, n)[..n] == BitsOf(value, n);
    }
  }

  /** A buffer with a bit set. */
  function WithBit(buf: seq<Byte>, i: nat): (r: seq<Byte>)
    requires i < 8 * |buf|
    ensures |r| == |buf|
  {
    buf[i / 8 := buf[i / 8] | Mask(i % 8)]
  }

  lemma OneBitIsSet(buf: seq<Byte>, at: nat)
    requires at < 8 * |buf|
    ensures var now := WithBit(buf, at);
      forall i | 0 <= i < 8 * |buf| :: BitOfBuffer(now, i) <==> i == at || BitOfBuffer(buf, i)
  {
    hide BitAt, Mask;
    var now := WithBit(buf, at);
    forall i | 0 <= i < 8 * |buf|
      ensures BitOfBuffer(now, i) <==> i == at || BitOfBuffer(buf, i)
    {
      if i / 8 == at / 8 {
        MasksAreDistinct(buf[at / 8], at % 8, i % 8);
      }
    }
  }

  lemma NextBit(buf: seq<Byte>, at: nat, bit: bool)
    requires at < 8 * |buf| && IsClear(buf, at)
    ensures var now := if bit then WithBit(buf, at) else buf;
      IsClear(now, at + 1) && BufferBits(now, at + 1) == BufferBits(buf, at) + [bit]
  {
    OneBitIsSet(buf, at);
    hide BitOfBuffer, WithBit;
  }

  function WholeBytes(bits: nat): (n: nat)
    ensures bits <= n < bits + 8 && n % 8 == 0
  {
    (bits + 7) / 8 * 8
  }

  // Bits passed over are clear.
  lemma Skipped(buf: seq<Byte>, from: nat, to: nat)
    requires from <= to <= 8 * |buf| && IsClear(buf, from)
    ensures IsClear(buf, to)
    ensures BufferBits(buf, to) == BufferBits(buf, from) + seq(to - from, _ => false)
  {
    hide BitOfBuffer;
  }

  lemma NothingIsSet(buf: seq<Byte>)
    requires forall i | 0 <= i < |buf| :: buf[i] == 0
    ensures IsClear(buf, 0)
  {
    hide Mask;
  }

  // ---------------------------------------------------------------- One block

  /** The codes of dct_dc_size_luminance and dct_dc_size_chrominance, as the encoder has them. */
  datatype Code = Code(value: nat, length: nat)

  const DC_SIZE_LUMA := [Code(0x4, 3), Code(0x0, 2), Code(0x1, 2), Code(0x5, 3), Code(0x6, 3),
                         Code(0xE, 4), Code(0x1E, 5), Code(0x3E, 6), Code(0x7E, 7),
                         Code(0xFE, 8), Code(0x1FE, 9), Code(0x1FF, 9)]
  const DC_SIZE_CHROMA := [Code(0x0, 2), Code(0x1, 2), Code(0x2, 2), Code(0x6, 3), Code(0xE, 4),
                           Code(0x1E, 5), Code(0x3E, 6), Code(0x7E, 7), Code(0xFE, 8),
                           Code(0x1FE, 9), Code(0x3FE, 10), Code(0x3FF, 10)]

  function SizeCode(luma: bool, size: nat): Code
    requires size < 12
  {
    if luma then DC_SIZE_LUMA[size] else DC_SIZE_CHROMA[size]
  }

  function Magnitude(diff: int): nat {
    if diff < 0 then -diff else diff
  }

  /** The bits of a magnitude. */
  function SizeOf(magnitude: nat): nat {
    if magnitude == 0 then 0 else 1 + SizeOf(magnitude / 2)
  }

  /** A difference as it is written in so many bits. */
  function DiffBits(diff: int, size: nat): int {
    if diff > 0 then diff else diff + Pow2(size) - 1
  }

  // The bits of the difference in a block.
  function ValueBits(diff: int): (s: seq<bool>)
    ensures |s| == SizeOf(Magnitude(diff))
  {
    var size := SizeOf(Magnitude(diff));
    DiffFits(diff);
    if size > 0 then BitsOf(DiffBits(diff, size), size) else []
  }

  /** The bits of a block of a flat colour: the size and the difference, and an end of block. */
  function BlockBits(diff: int, luma: bool): seq<bool>
    requires -255 <= diff <= 255
  {
    var size := SizeOf(Magnitude(diff));
    SizeIsSmall(Magnitude(diff));
    BitsOf(SizeCode(luma, size).value, SizeCode(luma, size).length) + ValueBits(diff)
    + [true, false]
  }

  lemma {:induction false} SizeBounds(magnitude: nat)
    ensures magnitude < Pow2(SizeOf(magnitude))
    ensures magnitude > 0 ==> Pow2(SizeOf(magnitude)) <= 2 * magnitude
  {
    if magnitude > 0 {
      SizeBounds(magnitude / 2);
    }
  }

  lemma SizeIsSmall(magnitude: nat)
    requires magnitude <= 255
    ensures SizeOf(magnitude) <= 8
  {
    SizeBelow(magnitude, 8);
  }

  lemma {:induction false} SizeBelow(magnitude: nat, n: nat)
    requires magnitude < Pow2(n)
    ensures SizeOf(magnitude) <= n
  {
    if magnitude > 0 {
      SizeBelow(magnitude / 2, n - 1);
    }
  }

  lemma DiffFits(diff: int)
    ensures var size := SizeOf(Magnitude(diff));
      size > 0 ==> 0 <= DiffBits(diff, size) < Pow2(size)
  {
    SizeBounds(Magnitude(diff));
  }

  // ---------------------------------------------------------------- The decoder

  /** The ones that bits start with, at most so many. */
  function Ones(bits: seq<bool>, max: nat): (n: nat)
    ensures n <= max && n <= |bits|
  {
    if max == 0 || bits == [] || !bits[0] then 0 else 1 + Ones(bits[1..], max - 1)
  }

  datatype Size = NoSize | Size(size: nat, length: nat)

  /** Tables B.12 and B.13: after two bits, a code is as many ones as tell the size, and a
      zero, but for the largest, which has none. */
  function DecodeSize(luma: bool, bits: seq<bool>): (r: Size)
    ensures r.Size? ==> r.size < 12 && r.length <= |bits|
  {
    if |bits| < 2 then NoSize
    else if luma && !bits[0] then Size(if bits[1] then 2 else 1, 2)
    else if !luma && !bits[0] then Size(if bits[1] then 1 else 0, 2)
    else if luma && !bits[1] then
      if |bits| < 3 then NoSize else Size(if bits[2] then 3 else 0, 3)
    else
      var last := if luma then 9 else 10;
      var n := Ones(bits, last);
      if n == last then Size(11, last)
      else if n == |bits| then NoSize
      else Size(if luma then n + 2 else n + 1, n + 1)
  }

  datatype Block = BadBlock | Block(diff: int, rest: seq<bool>)

  /** The difference that the bits of a block stand for. */
  function DiffOf(code: nat, size: nat): int {
    if size == 0 then 0 else if code >= Pow2(size - 1) then code else code + 1 - Pow2(size)
  }

  /** Section 7.2.1: the difference, and the end of block that must follow. */
  function DecodeBlock(luma: bool, bits: seq<bool>): Block {
    var s := DecodeSize(luma, bits);
    if s == NoSize || |bits| < s.length + s.size + 2 then BadBlock
    else
      var at := s.length + s.size;
      if bits[at..at + 2] != [true, false] then BadBlock
      else Block(DiffOf(Number(bits[s.length..at]), s.size), bits[at + 2..])
  }

  lemma {:induction false} OnesThenZero(n: nat, max: nat, rest: seq<bool>)
    requires n <= max
    ensures var bits := seq(n, _ => true) + (if n < max then [false] else []) + rest;
      Ones(bits, max) == n
  {
    var bits := seq(n, _ => true) + (if n < max then [false] else []) + rest;
    if n > 0 {
      assert bits[1..] == seq(n - 1, _ => true) + (if n < max then [false] else []) + rest;
      OnesThenZero(n - 1, max - 1, rest);
    }
  }

  // Ones as a number.
  lemma {:induction false} BitsOfOnes(n: nat)
    ensures BitsOf(Pow2(n) - 1, n) == seq(n, _ => true)
    ensures BitsOf(2 * Pow2(n) - 2, n + 1) == seq(n, _ => true) + [false]
  {
    if n > 0 {
      BitsOfOnes(n - 1);
      assert (Pow2(n) - 1) / 2 == Pow2(n - 1) - 1;
    }
    assert (2 * Pow2(n) - 2) / 2 == Pow2(n) - 1;
  }

  // A long code is ones, and a zero but for the longest.
  lemma LongCodeIs(luma: bool, size: nat)
    requires (if luma then 4 else 2) <= size <= 11
    ensures var n := if size == 11 then (if luma then 9 else 10)
                     else if luma then size - 2 else size - 1;
      SizeCode(luma, size)
      == if size == 11 then Code(Pow2(n) - 1, n) else Code(2 * Pow2(n) - 2, n + 1)
  {
    var n := if size == 11 then (if luma then 9 else 10) else if luma then size - 2 else size - 1;
    SmallPowers(n);
    hide Pow2;
  }

  lemma SmallPowers(n: nat)
    requires n <= 10
    ensures Pow2(n) == match n case 0 => 1 case 1 => 2 case 2 => 4 case 3 => 8 case 4 => 16
                               case 5 => 32 case 6 => 64 case 7 => 128 case 8 => 256
                               case 9 => 512 case 10 => 1024
  {
  }

  lemma LongCode(luma: bool, size: nat, rest: seq<bool>)
    requires (if luma then 4 else 2) <= size <= 11
    ensures var code := SizeCode(luma, size);
      DecodeSize(luma, BitsOf(code.value, code.length) + rest) == Size(size, code.length)
  {
    var last := if luma then 9 else 10;
    var n := if size == 11 then last else if luma then size - 2 else size - 1;
    LongCodeIs(luma, size);
    BitsOfOnes(n);
    OnesThenZero(n, last, rest);
    hide SizeCode, BitsOf, Pow2, Ones;
    var code := SizeCode(luma, size);
    var bits := BitsOf(code.value, code.length);
    assert bits == seq(n, _ => true) + (if n < last then [false] else []);
    assert (bits + rest)[0] && ((bits + rest)[1] || (!luma && n == 1));
  }

  lemma ShortCode(luma: bool, size: nat, rest: seq<bool>)
    requires size < if luma then 4 else 2
    ensures var code := SizeCode(luma, size);
      DecodeSize(luma, BitsOf(code.value, code.length) + rest) == Size(size, code.length)
  {
    var code := SizeCode(luma, size);
    var bits := BitsOf(code.value, code.length);
    TwoBits(code.value % 4);
    ThreeBits(code.value % 8);
    hide Ones, BitsOf;
  }

  lemma TwoBits(v: nat)
    requires v < 4
    ensures BitsOf(v, 2) == [v / 2 == 1, v % 2 == 1]
  {
    assert BitsOf(v / 2, 1) == [v / 2 % 2 == 1];
  }

  lemma ThreeBits(v: nat)
    requires v < 8
    ensures BitsOf(v, 3) == [v / 4 == 1, v / 2 % 2 == 1, v % 2 == 1]
  {
    TwoBits(v / 2);
  }

  /** The encoder's codes are those of the standard, and none starts another. */
  lemma SizeIsDecoded(luma: bool, size: nat, rest: seq<bool>)
    requires size <= 11
    ensures var code := SizeCode(luma, size);
      DecodeSize(luma, BitsOf(code.value, code.length) + rest) == Size(size, code.length)
  {
    var code := SizeCode(luma, size);
    if luma && size >= 4 {
      LongCode(true, size, rest);
    } else if !luma && size >= 2 {
      LongCode(false, size, rest);
    } else {
      ShortCode(luma, size, rest);
    }
  }

  // The parts of a block's bits.
  lemma BlockParts(front: seq<bool>, value: seq<bool>, rest: seq<bool>)
    ensures var bits := (front + value + [true, false]) + rest;
      var at := |front| + |value|;
      && bits == front + (value + [true, false] + rest) && |bits| >= at + 2
      && bits[|front|..at] == value && bits[at..at + 2] == [true, false] && bits[at + 2..] == rest
  {
  }

  lemma PartsAreDecoded(luma: bool, front: seq<bool>, value: seq<bool>, diff: int,
                        rest: seq<bool>)
    requires |value| < 12
    requires DecodeSize(luma, front + (value + [true, false] + rest)) == Size(|value|, |front|)
    requires DiffOf(Number(value), |value|) == diff
    ensures DecodeBlock(luma, (front + value + [true, false]) + rest) == Block(diff, rest)
  {
    hide DecodeSize, Number, DiffOf;
    BlockParts(front, value, rest);
  }

  lemma ValueIsDecoded(diff: int)
    ensures DiffOf(Number(ValueBits(diff)), SizeOf(Magnitude(diff))) == diff
  {
    var size := SizeOf(Magnitude(diff));
    DiffFits(diff);
    if size > 0 {
      NumberOfBits(DiffBits(diff, size), size);
    }
    hide BitsOf, Number;
    SizeBounds(Magnitude(diff));
  }

  /** A block is decoded to the difference it was made of, whatever follows it. */
  lemma BlockRoundTrip(diff: int, luma: bool, rest: seq<bool>)
    requires -255 <= diff <= 255
    ensures DecodeBlock(luma, BlockBits(diff, luma) + rest) == Block(diff, rest)
  {
    SizeIsSmall(Magnitude(diff));
    hide SizeOf, SizeCode, BitsOf, DecodeSize, DiffOf, Magnitude, DecodeBlock, ValueBits, Number;
    var size := SizeOf(Magnitude(diff));
    ValueIsDecoded(diff);
    var code := SizeCode(luma, size);
    SizeIsDecoded(luma, size, ValueBits(diff) + [true, false] + rest);
    PartsAreDecoded(luma, BitsOf(code.value, code.length), ValueBits(diff), diff, rest);
  }

  // ---------------------------------------------------------------- Blocks of a slice

  /** A difference of a component, and whether that is the luma. */
  datatype Diff = Diff(diff: int, luma: bool)

  predicate AreDiffs(diffs: seq<Diff>) {
    forall i | 0 <= i < |diffs| :: -255 <= diffs[i].diff <= 255
  }

  function BlocksBits(diffs: seq<Diff>): seq<bool>
    requires AreDiffs(diffs)
  {
    if diffs == [] then [] else BlockBits(diffs[0].diff, diffs[0].luma) + BlocksBits(diffs[1..])
  }

  datatype Blocks = BadBlocks | Blocks(diffs: seq<Diff>, rest: seq<bool>)

  /** As many blocks as there are kinds. */
  function DecodeBlocks(lumas: seq<bool>, bits: seq<bool>): Blocks
    decreases |lumas|
  {
    if lumas == [] then Blocks([], bits)
    else
      var first := DecodeBlock(lumas[0], bits);
      if first == BadBlock then BadBlocks
      else
        var others := DecodeBlocks(lumas[1..], first.rest);
        if others == BadBlocks then BadBlocks
        else Blocks([Diff(first.diff, lumas[0])] + others.diffs, others.rest)
  }

  function Lumas(diffs: seq<Diff>): seq<bool> {
    if diffs == [] then [] else [diffs[0].luma] + Lumas(diffs[1..])
  }

  lemma {:induction false} BlocksRoundTrip(diffs: seq<Diff>, rest: seq<bool>)
    requires AreDiffs(diffs)
    ensures DecodeBlocks(Lumas(diffs), BlocksBits(diffs) + rest) == Blocks(diffs, rest)
    decreases |diffs|
  {
    hide DecodeBlock, BlockBits;
    if diffs == [] {
      assert [] + rest == rest;
    } else {
      var d, others := diffs[0], diffs[1..];
      BlockRoundTrip(d.diff, d.luma, BlocksBits(others) + rest);
      BlocksRoundTrip(others, rest);
      assert BlocksBits(diffs) + rest
          == BlockBits(d.diff, d.luma) + (BlocksBits(others) + rest);
      assert Lumas(diffs)[1..] == Lumas(others);
    }
  }

  /** The components of a macroblock's colour. */
  datatype Colour = Colour(y: nat, cb: nat, cr: nat)

  predicate IsColour(c: Colour) {
    c.y <= 255 && c.cb <= 255 && c.cr <= 255
  }

  predicate AreColours(colours: seq<Colour>) {
    forall i | 0 <= i < |colours| :: IsColour(colours[i])
  }

  /** What the blocks before a slice's first count as. */
  const GREY := Colour(128, 128, 128)

  /** The differences of the six blocks of a macroblock of one colour, behind another. */
  function MacroblockDiffs(c: Colour, pred: Colour): (d: seq<Diff>)
    ensures |d| == 6 && (IsColour(c) && IsColour(pred) ==> AreDiffs(d))
  {
    [Diff(c.y - pred.y, true), Diff(0, true), Diff(0, true), Diff(0, true),
     Diff(c.cb - pred.cb, false), Diff(c.cr - pred.cr, false)]
  }

  /** Address increment 1, type intra, and the six blocks. */
  function MacroblockBits(c: Colour, pred: Colour): seq<bool>
    requires IsColour(c) && IsColour(pred)
  {
    [true, true] + BlocksBits(MacroblockDiffs(c, pred))
  }

  function SliceBits(colours: seq<Colour>, pred: Colour): seq<bool>
    requires AreColours(colours) && IsColour(pred)
  {
    if colours == [] then []
    else
      assert IsColour(colours[0]);
      MacroblockBits(colours[0], pred) + SliceBits(colours[1..], colours[0])
  }

  /** The six values of each macroblock. */
  datatype Values = BadSlice | Values(values: seq<seq<int>>, rest: seq<bool>)

  const KINDS := [true, true, true, true, false, false]

  /** Each block's value is that of the block before it of its component, and the difference. */
  function ValuesOf(pred: seq<int>, diffs: seq<Diff>): seq<int>
    requires |pred| == 3 && |diffs| == 6
  {
    var y0 := pred[0] + diffs[0].diff;
    var y1 := y0 + diffs[1].diff;
    var y2 := y1 + diffs[2].diff;
    [y0, y1, y2, y2 + diffs[3].diff, pred[1] + diffs[4].diff, pred[2] + diffs[5].diff]
  }

  function DecodeSlice(count: nat, pred: seq<int>, bits: seq<bool>): Values
    requires |pred| == 3
    decreases count
  {
    if count == 0 then Values([], bits)
    else if |bits| < 2 || bits[..2] != [true, true] then BadSlice
    else
      var blocks := DecodeBlocks(KINDS, bits[2..]);
      if blocks == BadBlocks || |blocks.diffs| != 6 then BadSlice
      else
        var values := ValuesOf(pred, blocks.diffs);
        var others := DecodeSlice(count - 1, [values[3], values[4], values[5]], blocks.rest);
        if others == BadSlice then BadSlice
        else Values([values] + others.values, others.rest)
  }

  /** The values of macroblocks of one colour each. */
  function FlatValues(colours: seq<Colour>): seq<seq<int>> {
    if colours == [] then []
    else [[colours[0].y, colours[0].y, colours[0].y, colours[0].y, colours[0].cb, colours[0].cr]]
         + FlatValues(colours[1..])
  }

  /** Decoding a slice gives back the colours that were coded, block by block. */
  lemma {:induction false} SliceRoundTrip(colours: seq<Colour>, pred: Colour, rest: seq<bool>)
    requires AreColours(colours) && IsColour(pred)
    ensures DecodeSlice(|colours|, [pred.y, pred.cb, pred.cr], SliceBits(colours, pred) + rest)
         == Values(FlatValues(colours), rest)
    decreases |colours|
  {
    hide MacroblockBits, MacroblockDiffs, DecodeBlocks, ValuesOf;
    if colours == [] {
      assert [] + rest == rest;
    } else {
      assert IsColour(colours[0]);
      var c, others := colours[0], colours[1..];
      var behind := SliceBits(others, c) + rest;
      MacroblockRoundTrip(c, pred, behind);
      SliceRoundTrip(others, c, rest);
      assert SliceBits(colours, pred) + rest == MacroblockBits(c, pred) + behind;
    }
  }

  lemma MacroblockRoundTrip(c: Colour, pred: Colour, rest: seq<bool>)
    requires IsColour(c) && IsColour(pred)
    ensures var bits := MacroblockBits(c, pred) + rest;
      && |bits| >= 2 && bits[..2] == [true, true]
      && DecodeBlocks(KINDS, bits[2..]) == Blocks(MacroblockDiffs(c, pred), rest)
      && ValuesOf([pred.y, pred.cb, pred.cr], MacroblockDiffs(c, pred))
         == [c.y, c.y, c.y, c.y, c.cb, c.cr]
  {
    KindsAre(c, pred);
    hide DecodeBlocks, BlocksBits;
    var diffs := MacroblockDiffs(c, pred);
    BlocksRoundTrip(diffs, rest);
    var bits := MacroblockBits(c, pred) + rest;
    assert bits == [true, true] + (BlocksBits(diffs) + rest);
    assert bits[2..] == BlocksBits(diffs) + rest;
  }

  lemma KindsAre(c: Colour, pred: Colour)
    ensures Lumas(MacroblockDiffs(c, pred)) == KINDS
  {
    var d := MacroblockDiffs(c, pred);
    assert Lumas(d[5..]) == [false];
    assert d[4..][1..] == d[5..] && Lumas(d[4..]) == [false, false];
    assert d[3..][1..] == d[4..] && Lumas(d[3..]) == [true, false, false];
    assert d[2..][1..] == d[3..] && Lumas(d[2..]) == [true, true, false, false];
    assert d[1..][1..] == d[2..] && Lumas(d[1..]) == [true, true, true, false, false];
  }

  // ---------------------------------------------------------------- How much room it takes

  const MB_COLS: nat := 45
  const MB_ROWS: nat := 36
  const MACROBLOCK_BITS: nat := 118

  /** The room that Init gives the elementary stream, less the PES header. */
  const PICTURE_CAPACITY: nat := 64 + MB_ROWS * (6 + MB_COLS * MACROBLOCK_BITS / 8 + 1)

  lemma BlockIsSmall(diff: int, luma: bool)
    requires -255 <= diff <= 255
    ensures |BlockBits(diff, luma)| <= if luma then 17 else 18
  {
    SizeIsSmall(Magnitude(diff));
    hide SizeOf, BitsOf, Magnitude;
  }

  lemma MacroblockIsSmall(c: Colour, pred: Colour)
    requires IsColour(c) && IsColour(pred)
    ensures |MacroblockBits(c, pred)| <= 106
  {
    hide BlockBits;
    var d := MacroblockDiffs(c, pred);
    BlockIsSmall(d[0].diff, true);
    BlockIsSmall(0, true);
    BlockIsSmall(d[4].diff, false);
    BlockIsSmall(d[5].diff, false);
    assert d[1..][1..] == d[2..] && d[2..][1..] == d[3..] && d[3..][1..] == d[4..];
    assert d[4..][1..] == d[5..] && d[5..][1..] == [];
    assert |BlocksBits(d[5..])| <= 18;
    assert |BlocksBits(d[4..])| <= 36;
    assert |BlocksBits(d[3..])| <= 53;
    assert |BlocksBits(d[2..])| <= 70;
    assert |BlocksBits(d[1..])| <= 87;
  }

  lemma {:induction false} SliceIsSmall(colours: seq<Colour>, pred: Colour)
    requires AreColours(colours) && IsColour(pred)
    ensures |SliceBits(colours, pred)| <= 106 * |colours|
    decreases |colours|
  {
    hide MacroblockBits;
    if colours != [] {
      assert IsColour(colours[0]);
      MacroblockIsSmall(colours[0], pred);
      SliceIsSmall(colours[1..], colours[0]);
    }
  }
}
