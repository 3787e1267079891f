// Source/AvFifo/DtAvPixConvSsse3.c: two pixel groups a step, as eight 16-bit elements.

module PixConvSsse3 {
  import opened Bytes
  import opened PixelSpec
  import opened Simd
  import PixConv

  // ---------------------------------------------------------------- Constants

  const Z := SHUF_ZERO

  // The two bytes around each sample, as a big-endian and as a little-endian word.
  const BIG_WORDS: seq<int> := SetEpi8([8, 9, 7, 8, 6, 7, 5, 6, 3, 4, 2, 3, 1, 2, 0, 1])
  const LITTLE_WORDS: seq<int> := SetEpi8([9, 8, 8, 7, 7, 6, 6, 5, 4, 3, 3, 2, 2, 1, 1, 0])

  const WEIGHTS: seq<bv16> := SetEpi16([64, 16, 4, 1, 64, 16, 4, 1])
  const REVERSED_WEIGHTS: seq<bv16> := SetEpi16([1, 4, 16, 64, 1, 4, 16, 64])

  // Where the bytes of the even and of the odd samples go.
  const EVEN_LE: seq<int> := SetEpi8([Z, Z, Z, Z, Z, Z, Z, 13, 12, 9, 8, Z, 5, 4, 1, 0])
  const ODD_LE: seq<int> := SetEpi8([Z, Z, Z, Z, Z, Z, 15, 14, 11, 10, Z, 7, 6, 3, 2, Z])
  const EVEN_BE: seq<int> := SetEpi8([Z, Z, Z, Z, Z, Z, Z, 12, 13, 8, 9, Z, 4, 5, 0, 1])
  const ODD_BE: seq<int> := SetEpi8([Z, Z, Z, Z, Z, Z, 14, 15, 10, 11, Z, 6, 7, 2, 3, Z])

  const HIGH_BYTES: seq<int> := SetEpi8([Z, Z, Z, Z, Z, Z, Z, Z, 15, 13, 11, 9, 7, 5, 3, 1])

  // ---------------------------------------------------------------- Steps

  /** The eight samples of two groups, each in bits 6 to 15 of its element. */
  function Lanes(block: M128, words: seq<int>, weights: seq<bv16>): M128
    requires |words| == 16 && |weights| == 8
  {
    MulloEpi16(ShuffleEpi8(block, words), weights)
  }

  /** The samples shifted back and then to where they go in their two bytes. */
  function Shifted(block: M128, words: seq<int>, weights: seq<bv16>): M128
    requires |words| == 16 && |weights| == 8
  {
    MulloEpi16(SrliEpi16By6(Lanes(block, words, weights)), weights)
  }

  /** The even samples' bytes and the odd samples' bytes, put together. */
  function Assembled(shifted: M128, even: seq<int>, odd: seq<int>): M128
    requires |even| == 16 && |odd| == 16
  {
    Or(ShuffleEpi8(shifted, even), ShuffleEpi8(shifted, odd))
  }

  /** A step of Pg10ToUyvy10, of Uyvy10ToPg10 and of Pg10ToUyvy8. */
  function StepToUyvy10(block: M128): M128 {
    Assembled(Shifted(block, BIG_WORDS, WEIGHTS), EVEN_LE, ODD_LE)
  }

  function StepToPg10(block: M128): M128 {
    Assembled(Shifted(block, LITTLE_WORDS, REVERSED_WEIGHTS), EVEN_BE, ODD_BE)
  }

  function StepToUyvy8(block: M128): M128 {
    ShuffleEpi8(Lanes(block, BIG_WORDS, WEIGHTS), HIGH_BYTES)
  }

  // ---------------------------------------------------------------- Elements

  // The word an element starts as.
  function Word(block: M128, words: seq<int>, i: nat): bv16
    requires |words| == 16 && i < 8
  {
    Element(block[words[2 * i] % 16], block[words[2 * i + 1] % 16])
  }

  // What the multiply, the shift and the second multiply make of it.
  function Spread(word: bv16, weight: bv16): bv16 {
    Mullo(ShiftRight6(Mullo(word, weight)), weight)
  }

  lemma ElementOfLanes(block: M128, words: seq<int>, weights: seq<bv16>, i: nat)
    requires |words| == 16 && |weights| == 8 && i < 8
    requires words[2 * i] >= 0 && words[2 * i + 1] >= 0
    ensures Lane(Lanes(block, words, weights), i) == Mullo(Word(block, words, i), weights[i])
  {
    hide MulloEpi16, Mullo, Element;
    LaneOfMullo(ShuffleEpi8(block, words), weights, i);
  }

  // The bytes of element i of Shifted.
  lemma BytesOfShifted(block: M128, words: seq<int>, weights: seq<bv16>, i: nat)
    requires |words| == 16 && |weights| == 8 && i < 8
    requires words[2 * i] >= 0 && words[2 * i + 1] >= 0
    ensures var s := Shifted(block, words, weights);
      && s[2 * i] == LowByte(Spread(Word(block, words, i), weights[i]))
      && s[2 * i + 1] == HighByte(Spread(Word(block, words, i), weights[i]))
  {
    hide Lanes, MulloEpi16, SrliEpi16By6, Mullo, ShiftRight6, Word, LowByte, HighByte;
    var lanes := Lanes(block, words, weights);
    ElementOfLanes(block, words, weights, i);
    LaneOfSrli(lanes, i);
    LaneOfMullo(SrliEpi16By6(lanes), weights, i);
    BytesOfLanes(Shifted(block, words, weights), i);
  }

  // Byte j of two shuffles put together.
  function PickBoth(s: M128, even: int, odd: int): Byte {
    OrByte(Pick(s, even), Pick(s, odd))
  }

  lemma ByteOfAssembled(s: M128, even: seq<int>, odd: seq<int>, j: nat)
    requires |even| == |odd| == 16 && j < 16
    ensures Assembled(s, even, odd)[j] == PickBoth(s, even[j], odd[j])
  {
  }

  // ------------------------------------------------- One group, on single bytes

  // A sample shifted up by two, four or six bits.
  function Up2(s: bv16): bv16 { s << 2 }
  function Up4(s: bv16): bv16 { s << 4 }
  function Up6(s: bv16): bv16 { s << 6 }

  lemma SpreadBe(b0: Byte, b1: Byte, b2: Byte, b3: Byte, b4: Byte)
    ensures Spread(Element(b1, b0), 1) == Be0(b0, b1)
    ensures Spread(Element(b2, b1), 4) == Up2(Be1(b1, b2))
    ensures Spread(Element(b3, b2), 16) == Up4(Be2(b2, b3))
    ensures Spread(Element(b4, b3), 64) == Up6(Be3(b3, b4))
  {
  }

  lemma SpreadLe(b0: Byte, b1: Byte, b2: Byte, b3: Byte, b4: Byte)
    ensures Spread(Element(b0, b1), 64) == Up6(Le0(b0, b1))
    ensures Spread(Element(b1, b2), 16) == Up4(Le1(b1, b2))
    ensures Spread(Element(b2, b3), 4) == Up2(Le2(b2, b3))
    ensures Spread(Element(b3, b4), 1) == Le3(b3, b4)
  {
  }

  // Samples shifted into their bytes and put together are samples packed.
  lemma AssembledLe(s0: bv16, s1: bv16, s2: bv16, s3: bv16)
    requires TenBits(s0) && TenBits(s1) && TenBits(s2) && TenBits(s3)
    ensures OrByte(LowByte(s0), 0) == Low8(s0)
    ensures OrByte(HighByte(s0), LowByte(Up2(s1))) == Pack1Le(s0, s1)
    ensures OrByte(LowByte(Up4(s2)), HighByte(Up2(s1))) == Pack2Le(s1, s2)
    ensures OrByte(HighByte(Up4(s2)), LowByte(Up6(s3))) == Pack3Le(s2, s3)
    ensures OrByte(0, HighByte(Up6(s3))) == Top8(s3)
  {
  }

  lemma AssembledBe(s0: bv16, s1: bv16, s2: bv16, s3: bv16)
    requires TenBits(s0) && TenBits(s1) && TenBits(s2) && TenBits(s3)
    ensures OrByte(HighByte(Up6(s0)), 0) == Top8(s0)
    ensures OrByte(LowByte(Up6(s0)), HighByte(Up4(s1))) == Pack1Be(s0, s1)
    ensures OrByte(HighByte(Up2(s2)), LowByte(Up4(s1))) == Pack2Be(s1, s2)
    ensures OrByte(LowByte(Up2(s2)), HighByte(s3)) == Pack3Be(s2, s3)
    ensures OrByte(0, LowByte(s3)) == Low8(s3)
  {
  }

  lemma HighBe(b0: Byte, b1: Byte, b2: Byte, b3: Byte, b4: Byte)
    ensures HighByte(Mullo(Element(b1, b0), 1)) == Top8(Be0(b0, b1))
    ensures HighByte(Mullo(Element(b2, b1), 4)) == Top8(Be1(b1, b2))
    ensures HighByte(Mullo(Element(b3, b2), 16)) == Top8(Be2(b2, b3))
    ensures HighByte(Mullo(Element(b4, b3), 64)) == Top8(Be3(b3, b4))
  {
  }

  // The five bytes a group's four elements give.
  function FiveLe(s0: bv16, s1: bv16, s2: bv16, s3: bv16): seq<Byte> {
    [OrByte(LowByte(s0), 0), OrByte(HighByte(s0), LowByte(s1)), OrByte(LowByte(s2), HighByte(s1)),
     OrByte(HighByte(s2), LowByte(s3)), OrByte(0, HighByte(s3))]
  }

  function FiveBe(s0: bv16, s1: bv16, s2: bv16, s3: bv16): seq<Byte> {
    [OrByte(HighByte(s0), 0), OrByte(LowByte(s0), HighByte(s1)), OrByte(HighByte(s2), LowByte(s1)),
     OrByte(LowByte(s2), HighByte(s3)), OrByte(0, LowByte(s3))]
  }

  lemma FiveOfGroupBe(g: seq<Byte>)
    requires |g| == 5
    ensures FiveLe(Spread(Element(g[1], g[0]), 1), Spread(Element(g[2], g[1]), 4),
                   Spread(Element(g[3], g[2]), 16), Spread(Element(g[4], g[3]), 64))
         == Group(ToUyvy10, g)
  {
    hide Spread, Element, LowByte, HighByte, OrByte, Low8, Top8, TenBits, Up2, Up4, Up6;
    hide Be0, Be1, Be2, Be3, Pack1Le, Pack2Le, Pack3Le;
    SpreadBe(g[0], g[1], g[2], g[3], g[4]);
    RepackedBe(g[0], g[1], g[2], g[3], g[4]);
    AssembledLe(Be0(g[0], g[1]), Be1(g[1], g[2]), Be2(g[2], g[3]), Be3(g[3], g[4]));
  }

  lemma FiveOfGroupLe(g: seq<Byte>)
    requires |g| == 5
    ensures FiveBe(Spread(Element(g[0], g[1]), 64), Spread(Element(g[1], g[2]), 16),
                   Spread(Element(g[2], g[3]), 4), Spread(Element(g[3], g[4]), 1))
         == Group(ToPg10, g)
  {
    hide Spread, Element, LowByte, HighByte, OrByte, Low8, Top8, TenBits, Up2, Up4, Up6;
    hide Le0, Le1, Le2, Le3, Pack1Be, Pack2Be, Pack3Be;
    SpreadLe(g[0], g[1], g[2], g[3], g[4]);
    RepackedLe(g[0], g[1], g[2], g[3], g[4]);
    AssembledBe(Le0(g[0], g[1]), Le1(g[1], g[2]), Le2(g[2], g[3]), Le3(g[3], g[4]));
  }

  // ------------------------------------------------- Two groups, on registers

  lemma FirstGroupToUyvy10(block: M128)
    ensures StepToUyvy10(block)[..5] == Group(ToUyvy10, block[..5])
  {
    hide Assembled, Shifted, Spread, Element, LowByte, HighByte, OrByte, Group;
    BytesOfShifted(block, BIG_WORDS, WEIGHTS, 0);
    BytesOfShifted(block, BIG_WORDS, WEIGHTS, 1);
    BytesOfShifted(block, BIG_WORDS, WEIGHTS, 2);
    BytesOfShifted(block, BIG_WORDS, WEIGHTS, 3);
    FiveOfGroupBe(block[..5]);
    var s := Shifted(block, BIG_WORDS, WEIGHTS);
    ByteOfAssembled(s, EVEN_LE, ODD_LE, 0);
    ByteOfAssembled(s, EVEN_LE, ODD_LE, 1);
    ByteOfAssembled(s, EVEN_LE, ODD_LE, 2);
    ByteOfAssembled(s, EVEN_LE, ODD_LE, 3);
    ByteOfAssembled(s, EVEN_LE, ODD_LE, 4);
  }

  lemma SecondGroupToUyvy10(block: M128)
    ensures StepToUyvy10(block)[5..10] == Group(ToUyvy10, block[5..10])
  {
    hide Assembled, Shifted, Spread, Element, LowByte, HighByte, OrByte, Group;
    BytesOfShifted(block, BIG_WORDS, WEIGHTS, 4);
    BytesOfShifted(block, BIG_WORDS, WEIGHTS, 5);
    BytesOfShifted(block, BIG_WORDS, WEIGHTS, 6);
    BytesOfShifted(block, BIG_WORDS, WEIGHTS, 7);
    FiveOfGroupBe(block[5..10]);
    var s := Shifted(block, BIG_WORDS, WEIGHTS);
    ByteOfAssembled(s, EVEN_LE, ODD_LE, 5);
    ByteOfAssembled(s, EVEN_LE, ODD_LE, 6);
    ByteOfAssembled(s, EVEN_LE, ODD_LE, 7);
    ByteOfAssembled(s, EVEN_LE, ODD_LE, 8);
    ByteOfAssembled(s, EVEN_LE, ODD_LE, 9);
  }

  lemma FirstGroupToPg10(block: M128)
    ensures StepToPg10(block)[..5] == Group(ToPg10, block[..5])
  {
    hide Assembled, Shifted, Spread, Element, LowByte, HighByte, OrByte, Group;
    BytesOfShifted(block, LITTLE_WORDS, REVERSED_WEIGHTS, 0);
    BytesOfShifted(block, LITTLE_WORDS, REVERSED_WEIGHTS, 1);
    BytesOfShifted(block, LITTLE_WORDS, REVERSED_WEIGHTS, 2);
    BytesOfShifted(block, LITTLE_WORDS, REVERSED_WEIGHTS, 3);
    FiveOfGroupLe(block[..5]);
    var s := Shifted(block, LITTLE_WORDS, REVERSED_WEIGHTS);
    ByteOfAssembled(s, EVEN_BE, ODD_BE, 0);
    ByteOfAssembled(s, EVEN_BE, ODD_BE, 1);
    ByteOfAssembled(s, EVEN_BE, ODD_BE, 2);
    ByteOfAssembled(s, EVEN_BE, ODD_BE, 3);
    ByteOfAssembled(s, EVEN_BE, ODD_BE, 4);
  }

  lemma SecondGroupToPg10(block: M128)
    ensures StepToPg10(block)[5..10] == Group(ToPg10, block[5..10])
  {
    hide Assembled, Shifted, Spread, Element, LowByte, HighByte, OrByte, Group;
    BytesOfShifted(block, LITTLE_WORDS, REVERSED_WEIGHTS, 4);
    BytesOfShifted(block, LITTLE_WORDS, REVERSED_WEIGHTS, 5);
    BytesOfShifted(block, LITTLE_WORDS, REVERSED_WEIGHTS, 6);
    BytesOfShifted(block, LITTLE_WORDS, REVERSED_WEIGHTS, 7);
    FiveOfGroupLe(block[5..10]);
    var s := Shifted(block, LITTLE_WORDS, REVERSED_WEIGHTS);
    ByteOfAssembled(s, EVEN_BE, ODD_BE, 5);
    ByteOfAssembled(s, EVEN_BE, ODD_BE, 6);
    ByteOfAssembled(s, EVEN_BE, ODD_BE, 7);
    ByteOfAssembled(s, EVEN_BE, ODD_BE, 8);
    ByteOfAssembled(s, EVEN_BE, ODD_BE, 9);
  }

  // The upper byte of element i of the samples.
  lemma HighOfLanes(block: M128, i: nat)
    requires i < 8
    ensures StepToUyvy8(block)[i] == HighByte(Mullo(Word(block, BIG_WORDS, i), WEIGHTS[i]))
  {
    hide Lanes, Mullo, Word, HighByte, LowByte;
    ElementOfLanes(block, BIG_WORDS, WEIGHTS, i);
    BytesOfLanes(Lanes(block, BIG_WORDS, WEIGHTS), i);
  }

  lemma FirstGroupToUyvy8(block: M128)
    ensures StepToUyvy8(block)[..4] == Group(ToUyvy8, block[..5])
  {
    hide StepToUyvy8, Mullo, Element, HighByte, Low8, Top8, Be0, Be1, Be2, Be3;
    HighOfLanes(block, 0);
    HighOfLanes(block, 1);
    HighOfLanes(block, 2);
    HighOfLanes(block, 3);
    HighBe(block[0], block[1], block[2], block[3], block[4]);
  }

  lemma SecondGroupToUyvy8(block: M128)
    ensures StepToUyvy8(block)[4..8] == Group(ToUyvy8, block[5..10])
  {
    hide StepToUyvy8, Mullo, Element, HighByte, Low8, Top8, Be0, Be1, Be2, Be3;
    HighOfLanes(block, 4);
    HighOfLanes(block, 5);
    HighOfLanes(block, 6);
    HighOfLanes(block, 7);
    HighBe(block[5], block[6], block[7], block[8], block[9]);
  }

  /** A step converts two groups; what it stores behind them is overwritten later. */
  lemma TwoGroupsToUyvy10(block: M128)
    ensures Convert(ToUyvy10, block[..10]) <= StepToUyvy10(block)
  {
    hide StepToUyvy10, Group, Convert;
    FirstGroupToUyvy10(block);
    SecondGroupToUyvy10(block);
    var two := block[..10];
    assert two[..5] == block[..5] && two[5..] == block[5..10];
    ConvertGroups(ToUyvy10, two);
  }

  lemma TwoGroupsToPg10(block: M128)
    ensures Convert(ToPg10, block[..10]) <= StepToPg10(block)
  {
    hide StepToPg10, Group, Convert;
    FirstGroupToPg10(block);
    SecondGroupToPg10(block);
    var two := block[..10];
    assert two[..5] == block[..5] && two[5..] == block[5..10];
    ConvertGroups(ToPg10, two);
  }

  lemma TwoGroupsToUyvy8(block: M128)
    ensures Convert(ToUyvy8, block[..10]) == StepToUyvy8(block)[..8]
  {
    hide StepToUyvy8, Group, Convert;
    FirstGroupToUyvy8(block);
    SecondGroupToUyvy8(block);
    var two := block[..10];
    assert two[..5] == block[..5] && two[5..] == block[5..10];
    ConvertGroups(ToUyvy8, two);
  }

  // ---------------------------------------------------------------- The loops

  method Pg10ToUyvy10(src: seq<Byte>, dst: array<Byte>, at: nat)
    requires |src| % 5 == 0 && at + |src| <= dst.Length
    modifies dst
    ensures Stored(old(dst[..]), dst[..], at, Convert(ToUyvy10, src))
  {
    hide Group, Convert, Stored, PixConv.Progress, StepToUyvy10;
    ghost var pre := dst[..];
    var done := 0;
    PixConv.ProgressStart(ToUyvy10, src, pre, at);
    while |src| - done >= 20
      invariant 0 <= done <= |src| && done % 5 == 0
      invariant PixConv.Progress(ToUyvy10, src, pre, dst[..], at, done)
    {
      var block := src[done..done + 16];
      var bytes := StepToUyvy10(block);
      TwoGroupsToUyvy10(block);
      PixConv.RoomLeft(ToUyvy10, src, done, 4);
      assert block[..10] == src[done..done + 10];
      PixConv.StoreStep(ToUyvy10, src, pre, dst, at, done, 10, bytes);
      done := done + 10;
    }
    ghost var before := dst[..];
    PixConv.Pg10ToUyvy10(src[done..], dst, at + done);
    PixConv.RestStored(ToUyvy10, src, pre, before, dst[..], at, done);
  }

  method Pg10ToUyvy8(src: seq<Byte>, dst: array<Byte>, at: nat)
    requires |src| % 5 == 0 && at + |src| / 5 * 4 <= dst.Length
    modifies dst
    ensures Stored(old(dst[..]), dst[..], at, Convert(ToUyvy8, src))
  {
    hide Group, Convert, Stored, PixConv.Progress, StepToUyvy8;
    ghost var pre := dst[..];
    var done := 0;
    PixConv.ProgressStart(ToUyvy8, src, pre, at);
    while |src| - done >= 20
      invariant 0 <= done <= |src| && done % 5 == 0
      invariant PixConv.Progress(ToUyvy8, src, pre, dst[..], at, done)
    {
      var block := src[done..done + 16];
      var bytes := StepToUyvy8(block)[..8];
      TwoGroupsToUyvy8(block);
      PixConv.RoomLeft(ToUyvy8, src, done, 4);
      assert block[..10] == src[done..done + 10];
      PixConv.StoreStep(ToUyvy8, src, pre, dst, at, done, 10, bytes);
      done := done + 10;
    }
    ghost var before := dst[..];
    PixConv.Pg10ToUyvy8(src[done..], dst, at + done / 5 * 4);
    PixConv.RestStored(ToUyvy8, src, pre, before, dst[..], at, done);
  }

  method Uyvy10ToPg10(src: seq<Byte>, dst: array<Byte>, at: nat)
    requires |src| % 5 == 0 && at + |src| <= dst.Length
    modifies dst
    ensures Stored(old(dst[..]), dst[..], at, Convert(ToPg10, src))
  {
    hide Group, Convert, Stored, PixConv.Progress, StepToPg10;
    ghost var pre := dst[..];
    var done := 0;
    PixConv.ProgressStart(ToPg10, src, pre, at);
    while |src| - done >= 20
      invariant 0 <= done <= |src| && done % 5 == 0
      invariant PixConv.Progress(ToPg10, src, pre, dst[..], at, done)
    {
      var block := src[done..done + 16];
      var bytes := StepToPg10(block);
      TwoGroupsToPg10(block);
      PixConv.RoomLeft(ToPg10, src, done, 4);
      assert block[..10] == src[done..done + 10];
      PixConv.StoreStep(ToPg10, src, pre, dst, at, done, 10, bytes);
      done := done + 10;
    }
    ghost var before := dst[..];
    PixConv.Uyvy10ToPg10(src[done..], dst, at + done);
    PixConv.RestStored(ToPg10, src, pre, before, dst[..], at, done);
  }

  // ---------------------------------------------------------------- Planes

  const SPLIT: seq<int> := SetEpi8([15, 13, 11, 9, 7, 5, 3, 1, 14, 12, 10, 8, 6, 4, 2, 0])

  function Luma(first: M128, second: M128): M128 {
    PackusEpi16(SrliEpi16By8(first), SrliEpi16By8(second))
  }

  function BlueRed(first: M128, second: M128): M128 {
    ShuffleEpi8(PackusEpi16(AndWithLow(first), AndWithLow(second)), SPLIT)
  }

  /** A step splits eight groups into sixteen luma bytes, eight blue and eight red. */
  lemma StepSplits(first: M128, second: M128)
    ensures IsPlanar(first + second, Luma(first, second), BlueRed(first, second)[..8],
                     BlueRed(first, second)[8..])
  {
    var src := first + second;
    forall j | 0 <= j < 16
      ensures Luma(first, second)[j] == src[2 * j + 1]
    {
      OddBytes(first, second, j);
    }
    forall i | 0 <= i < 8
      ensures BlueRed(first, second)[i] == src[4 * i]
      ensures BlueRed(first, second)[8 + i] == src[4 * i + 2]
    {
      ChromaOfStep(first, second, i);
    }
  }

  lemma ChromaOfStep(first: M128, second: M128, i: nat)
    requires i < 8
    ensures BlueRed(first, second)[i] == (first + second)[4 * i]
    ensures BlueRed(first, second)[8 + i] == (first + second)[4 * i + 2]
  {
    hide AndWithLow, PackusEpi16;
    assert SPLIT[i] == 2 * i && SPLIT[8 + i] == 2 * i + 1;
    EvenBytes(first, second, 2 * i);
    EvenBytes(first, second, 2 * i + 1);
  }

  method Uyvy8ToYuv422p(src: seq<Byte>, dst: array<Byte>, y: nat, u: nat, v: nat)
    requires |src| % 4 == 0 && PixConv.PlanesApart(dst.Length, y, u, v, |src| / 4)
    modifies dst
    ensures PixConv.InPlanes(src, dst[..], y, u, v, 0, |src| / 4)
    ensures PixConv.OutsidePlanes(old(dst[..]), dst[..], y, u, v, |src| / 4)
  {
    hide PixConv.InPlanes, PixConv.OutsidePlanes;
    ghost var pre := dst[..];
    var i, n := 0, |src| / 4;
    PixConv.NoPlanes(src, pre, y, u, v, n);
    while n - i >= 8
      invariant i <= n
      invariant PixConv.InPlanes(src, dst[..], y, u, v, 0, i)
      invariant PixConv.OutsidePlanes(pre, dst[..], y, u, v, n)
    {
      ghost var before := dst[..];
      PlanarStep(src, dst, y, u, v, i);
      PixConv.MorePlanes(src, before, dst[..], y, u, v, i, 8, n);
      PixConv.StillOutside(pre, before, dst[..], y, u, v, i, 8, n);
      i := i + 8;
    }
    ghost var before := dst[..];
    PlanarRest(src, dst, y, u, v, i);
    PixConv.MorePlanes(src, before, dst[..], y, u, v, i, n - i, n);
    PixConv.StillOutside(pre, before, dst[..], y, u, v, i, n - i, n);
  }

  // The groups left over, one at a time.
  method PlanarRest(src: seq<Byte>, dst: array<Byte>, y: nat, u: nat, v: nat, i: nat)
    requires |src| % 4 == 0 && i <= |src| / 4 && PixConv.PlanesApart(dst.Length, y, u, v, |src| / 4)
    modifies dst
    ensures PixConv.InPlanes(src, dst[..], y, u, v, i, |src| / 4)
    ensures PixConv.OutsidePlanes(old(dst[..]), dst[..], y + 2 * i, u + i, v + i, |src| / 4 - i)
  {
    hide PixConv.InPlanes, PixConv.OutsidePlanes;
    PixConv.Uyvy8ToYuv422p(src[4 * i..], dst, y + 2 * i, u + i, v + i);
    PlanesOfRest(src, dst[..], y, u, v, i);
  }

  // Eight groups to their places in the planes.
  method PlanarStep(src: seq<Byte>, dst: array<Byte>, y: nat, u: nat, v: nat, i: nat)
    requires i + 8 <= |src| / 4 && PixConv.PlanesApart(dst.Length, y, u, v, i + 8)
    modifies dst
    ensures PixConv.InPlanes(src, dst[..], y, u, v, i, i + 8)
    ensures PixConv.OutsidePlanes(old(dst[..]), dst[..], y + 2 * i, u + i, v + i, 8)
  {
    hide IsPlanar, Luma, BlueRed, Stored, PixConv.OutsidePlanes;
    var first, second := src[4 * i..4 * i + 16], src[4 * i + 16..4 * i + 32];
    StepSplits(first, second);
    ghost var pre := dst[..];
    Store(dst, y + 2 * i, Luma(first, second));
    ghost var a := dst[..];
    Store(dst, u + i, BlueRed(first, second)[..8]);
    ghost var b := dst[..];
    Store(dst, v + i, BlueRed(first, second)[8..]);
    assert first + second == src[4 * i..4 * (i + 8)];
    ThreeStores(pre, a, b, dst[..], y + 2 * i, u + i, v + i, Luma(first, second),
                BlueRed(first, second)[..8], BlueRed(first, second)[8..]);
  }

  lemma ThreeStores(pre: seq<Byte>, a: seq<Byte>, b: seq<Byte>, now: seq<Byte>, y: nat, u: nat,
                    v: nat, luma: seq<Byte>, blue: seq<Byte>, red: seq<Byte>)
    requires |luma| == 16 && |blue| == |red| == 8 && PixConv.PlanesApart(|pre|, y, u, v, 8)
    requires Stored(pre, a, y, luma) && Stored(a, b, u, blue) && Stored(b, now, v, red)
    ensures now[y..y + 16] == luma && now[u..u + 8] == blue && now[v..v + 8] == red
    ensures PixConv.OutsidePlanes(pre, now, y, u, v, 8)
  {
    StoredAt(pre, a, y, luma);
    StoredAt(a, b, u, blue);
    StoredAt(b, now, v, red);
    hide Stored;
  }

  lemma PlanesOfRest(src: seq<Byte>, now: seq<Byte>, y: nat, u: nat, v: nat, i: nat)
    requires |src| % 4 == 0 && i <= |src| / 4
    requires PixConv.InPlanes(src[4 * i..], now, y + 2 * i, u + i, v + i, 0, |src| / 4 - i)
    ensures PixConv.InPlanes(src, now, y, u, v, i, |src| / 4)
  {
    assert src[4 * i..][..4 * (|src| / 4 - i)] == src[4 * i..4 * (|src| / 4)];
  }
}
