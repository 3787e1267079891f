// The vector instructions the SSSE3 and AVX2 conversions are built from.

/** A 128-bit register is its sixteen bytes, lowest first. */
module Simd {
  import opened Bytes

  type M128 = s: seq<Byte> | |s| == 16 witness seq(16, _ => 0)

  // The top bit set: the byte shuffled in is 0.
  const SHUF_ZERO := -128

  // Byte b of a 16-bit element, and the element of two bytes.
  function LowByte(v: bv16): Byte { (v & 0xFF) as bv8 }
  function HighByte(v: bv16): Byte { (v >> 8) as bv8 }
  function Element(low: Byte, high: Byte): bv16 { (low as bv16) | ((high as bv16) << 8) }

  lemma ElementOfBytes(v: bv16)
    ensures Element(LowByte(v), HighByte(v)) == v
  {
  }

  /** 16-bit element i. */
  function Lane(a: M128, i: nat): bv16
    requires i < 8
  {
    Element(a[2 * i], a[2 * i + 1])
  }

  /** _mm_set_epi8 and _mm_set_epi16 list the highest element first. */
  function SetEpi8(e: seq<int>): seq<int>
    requires |e| == 16
  {
    seq(16, i requires 0 <= i < 16 => e[15 - i])
  }

  function SetEpi16(e: seq<bv16>): (r: seq<bv16>)
    requires |e| == 8
    ensures |r| == 8
  {
    [e[7], e[6], e[5], e[4], e[3], e[2], e[1], e[0]]
  }

  /** A register of eight 16-bit elements. */
  function OfLanes(l: seq<bv16>): M128
    requires |l| == 8
  {
    [LowByte(l[0]), HighByte(l[0]), LowByte(l[1]), HighByte(l[1]),
     LowByte(l[2]), HighByte(l[2]), LowByte(l[3]), HighByte(l[3]),
     LowByte(l[4]), HighByte(l[4]), LowByte(l[5]), HighByte(l[5]),
     LowByte(l[6]), HighByte(l[6]), LowByte(l[7]), HighByte(l[7])]
  }

  /** _mm_shuffle_epi8: the byte each index names, or zero for a negative one. */
  function ShuffleEpi8(a: M128, index: seq<int>): M128
    requires |index| == 16
  {
    seq(16, i requires 0 <= i < 16 => Pick(a, index[i]))
  }

  // The byte a shuffle index names.
  function Pick(a: M128, index: int): Byte {
    if index < 0 then 0 else a[index % 16]
  }

  // What is done to each 16-bit element.
  function Mullo(a: bv16, b: bv16): bv16 { a * b }
  function ShiftRight6(a: bv16): bv16 { a >> 6 }
  function OrByte(a: Byte, b: Byte): Byte { a | b }

  /** _mm_mullo_epi16: the low 16 bits of each product. */
  function MulloEpi16(a: M128, m: seq<bv16>): M128
    requires |m| == 8
  {
    OfLanes(seq(8, i requires 0 <= i < 8 => Mullo(Lane(a, i), m[i])))
  }

  /** _mm_srli_epi16 by 6. */
  function SrliEpi16By6(a: M128): M128 {
    OfLanes(seq(8, i requires 0 <= i < 8 => ShiftRight6(Lane(a, i))))
  }

  /** _mm_or_si128. */
  function Or(a: M128, b: M128): M128 {
    seq(16, i requires 0 <= i < 16 => OrByte(a[i], b[i]))
  }

  // The elements of a register made of them.
  lemma LaneOfLanes(l: seq<bv16>, i: nat)
    requires |l| == 8 && i < 8
    ensures Lane(OfLanes(l), i) == l[i]
  {
    hide LowByte, HighByte, Element;
    ElementOfBytes(l[i]);
    var m := OfLanes(l);
    assert m[2 * i] == LowByte(l[i]) && m[2 * i + 1] == HighByte(l[i]) by {
      if i < 4 {
        if i < 2 { if i == 0 {} else {} } else { if i == 2 {} else {} }
      } else {
        if i < 6 { if i == 4 {} else {} } else { if i == 6 {} else {} }
      }
    }
  }

  /** Each instruction on 16-bit elements works element by element. */
  lemma LaneOfMullo(a: M128, m: seq<bv16>, i: nat)
    requires |m| == 8 && i < 8
    ensures Lane(MulloEpi16(a, m), i) == Mullo(Lane(a, i), m[i])
  {
    hide OfLanes, Lane, Mullo;
    LaneOfLanes(seq(8, j requires 0 <= j < 8 => Mullo(Lane(a, j), m[j])), i);
  }

  lemma LaneOfSrli(a: M128, i: nat)
    requires i < 8
    ensures Lane(SrliEpi16By6(a), i) == ShiftRight6(Lane(a, i))
  {
    hide OfLanes, Lane, ShiftRight6;
    LaneOfLanes(seq(8, j requires 0 <= j < 8 => ShiftRight6(Lane(a, j))), i);
  }

  // The bytes of a register are those of its elements.
  lemma BytesOfLanes(a: M128, i: nat)
    requires i < 8
    ensures a[2 * i] == LowByte(Lane(a, i)) && a[2 * i + 1] == HighByte(Lane(a, i))
  {
    BytesOfElement(a[2 * i], a[2 * i + 1]);
  }

  lemma BytesOfElement(low: Byte, high: Byte)
    ensures LowByte(Element(low, high)) == low && HighByte(Element(low, high)) == high
  {
  }

  // ------------------------------------------------- Packing elements to bytes

  function ShiftRight8(a: bv16): bv16 { a >> 8 }
  function AndLow(a: bv16): bv16 { a & 0x00FF }

  /** _mm_packus_epi16 on one element: a signed number, cut to what a byte holds. */
  function Saturate(a: bv16): Byte {
    if a >= 0x8000 then 0 else if a > 0xFF then 0xFF else a as bv8
  }

  function SrliEpi16By8(a: M128): M128 {
    OfLanes(seq(8, i requires 0 <= i < 8 => ShiftRight8(Lane(a, i))))
  }

  /** _mm_and_si128 with 0x00FF in every element. */
  function AndWithLow(a: M128): M128 {
    OfLanes(seq(8, i requires 0 <= i < 8 => AndLow(Lane(a, i))))
  }

  function PackusEpi16(a: M128, b: M128): M128 {
    seq(16, i requires 0 <= i < 16 => Saturate(if i < 8 then Lane(a, i) else Lane(b, i - 8)))
  }

  // Saturation is exact for the bytes of an element.
  lemma PackedByte(low: Byte, high: Byte)
    ensures Saturate(ShiftRight8(Element(low, high))) == high
    ensures Saturate(AndLow(Element(low, high))) == low
  {
  }

  /** Packing shifted elements gives the odd bytes, packing masked ones the even bytes. */
  lemma OddBytes(a: M128, b: M128, i: nat)
    requires i < 16
    ensures PackusEpi16(SrliEpi16By8(a), SrliEpi16By8(b))[i] == (a + b)[2 * i + 1]
  {
    hide OfLanes, ShiftRight8, Saturate, Element;
    var (r, k) := if i < 8 then (a, i) else (b, i - 8);
    LaneOfLanes(seq(8, j requires 0 <= j < 8 => ShiftRight8(Lane(r, j))), k);
    PackedByte(r[2 * k], r[2 * k + 1]);
  }

  lemma EvenBytes(a: M128, b: M128, i: nat)
    requires i < 16
    ensures PackusEpi16(AndWithLow(a), AndWithLow(b))[i] == (a + b)[2 * i]
  {
    hide OfLanes, AndLow, Saturate, Element;
    var (r, k) := if i < 8 then (a, i) else (b, i - 8);
    LaneOfLanes(seq(8, j requires 0 <= j < 8 => AndLow(Lane(r, j))), k);
    PackedByte(r[2 * k], r[2 * k + 1]);
  }

  // ------------------------------------------------- 256 bits

  /** A 256-bit register is two lanes, which most instructions treat alike. */
  datatype M256 = M256(lower: M128, upper: M128)

  function ShuffleBoth(a: M256, index: seq<int>): M256
    requires |index| == 16
  {
    M256(ShuffleEpi8(a.lower, index), ShuffleEpi8(a.upper, index))
  }

  function MulloBoth(a: M256, m: seq<bv16>): M256
    requires |m| == 8
  {
    M256(MulloEpi16(a.lower, m), MulloEpi16(a.upper, m))
  }

  function SrliBothBy6(a: M256): M256 {
    M256(SrliEpi16By6(a.lower), SrliEpi16By6(a.upper))
  }

  function OrBoth(a: M256, b: M256): M256 {
    M256(Or(a.lower, b.lower), Or(a.upper, b.upper))
  }

  /** _mm256_permute4x64_epi64 with _MM_SHUFFLE(3, 1, 2, 0): the middle quarters change places. */
  function SwapMiddle(a: M256): M256 {
    M256(a.lower[..8] + a.upper[..8], a.lower[8..] + a.upper[8..])
  }
}
