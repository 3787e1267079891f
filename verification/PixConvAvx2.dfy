// Source/AvFifo/DtAvPixConvAvx2.c: the SSSE3 steps, on two 128-bit lanes at a time.

module PixConvAvx2 {
  import opened Bytes
  import opened PixelSpec
  import opened Simd
  import PixConv
  import Ssse3 = PixConvSsse3

  /** The 16 bytes at the start of block in the lower lane, the 16 ten further in the upper. */
  function LoadGroups(block: seq<Byte>): M256
    requires |block| == 26
  {
    M256(block[..16], block[10..])
  }

  /** What storing the lower lane and then the upper, ten bytes further, leaves in memory. */
  function StoreGroups(groups: M256): (r: seq<Byte>)
    ensures |r| == 26
  {
    groups.lower[..10] + groups.upper
  }

  function Lanes(block: M256, words: seq<int>, weights: seq<bv16>): M256
    requires |words| == 16 && |weights| == 8
  {
    MulloBoth(ShuffleBoth(block, words), weights)
  }

  function Assembled(block: M256, words: seq<int>, weights: seq<bv16>, even: seq<int>,
                     odd: seq<int>): M256
    requires |words| == |even| == |odd| == 16 && |weights| == 8
  {
    var shifted := MulloBoth(SrliBothBy6(Lanes(block, words, weights)), weights);
    OrBoth(ShuffleBoth(shifted, even), ShuffleBoth(shifted, odd))
  }

  function StepToUyvy10(block: seq<Byte>): (r: seq<Byte>)
    requires |block| == 26
    ensures |r| == 26
  {
    StoreGroups(Assembled(LoadGroups(block), Ssse3.BIG_WORDS, Ssse3.WEIGHTS, Ssse3.EVEN_LE,
                          Ssse3.ODD_LE))
  }

  function StepToPg10(block: seq<Byte>): (r: seq<Byte>)
    requires |block| == 26
    ensures |r| == 26
  {
    StoreGroups(Assembled(LoadGroups(block), Ssse3.LITTLE_WORDS, Ssse3.REVERSED_WEIGHTS,
                          Ssse3.EVEN_BE, Ssse3.ODD_BE))
  }

  function StepToUyvy8(block: seq<Byte>): (r: seq<Byte>)
    requires |block| == 26
    ensures |r| == 16
  {
    var high := ShuffleBoth(Lanes(LoadGroups(block), Ssse3.BIG_WORDS, Ssse3.WEIGHTS),
                            Ssse3.HIGH_BYTES);
    SwapMiddle(high).lower
  }

  // Four groups are two and two.
  lemma FourGroups(c: Conv, block: seq<Byte>)
    requires |block| == 26
    ensures Convert(c, block[..20]) == Convert(c, block[..10]) + Convert(c, block[10..][..10])
  {
    assert block[..20] == block[..10] + block[10..][..10];
    ConvertConcat(c, block[..10], block[10..][..10]);
  }

  /** Each lane does what the SSSE3 step does, so a step converts four groups. */
  lemma FourGroupsToUyvy10(block: seq<Byte>)
    requires |block| == 26
    ensures Convert(ToUyvy10, block[..20]) <= StepToUyvy10(block)
  {
    hide Convert, ShuffleEpi8, MulloEpi16, SrliEpi16By6, Or, SetEpi8, SetEpi16;
    var lower: M128, upper: M128 := block[..16], block[10..];
    assert StepToUyvy10(block) == Ssse3.StepToUyvy10(lower)[..10] + Ssse3.StepToUyvy10(upper);
    Ssse3.TwoGroupsToUyvy10(lower);
    Ssse3.TwoGroupsToUyvy10(upper);
    assert lower[..10] == block[..10];
    FourGroups(ToUyvy10, block);
  }

  lemma FourGroupsToPg10(block: seq<Byte>)
    requires |block| == 26
    ensures Convert(ToPg10, block[..20]) <= StepToPg10(block)
  {
    hide Convert, ShuffleEpi8, MulloEpi16, SrliEpi16By6, Or, SetEpi8, SetEpi16;
    var lower: M128, upper: M128 := block[..16], block[10..];
    assert StepToPg10(block) == Ssse3.StepToPg10(lower)[..10] + Ssse3.StepToPg10(upper);
    Ssse3.TwoGroupsToPg10(lower);
    Ssse3.TwoGroupsToPg10(upper);
    assert lower[..10] == block[..10];
    FourGroups(ToPg10, block);
  }

  lemma FourGroupsToUyvy8(block: seq<Byte>)
    requires |block| == 26
    ensures Convert(ToUyvy8, block[..20]) == StepToUyvy8(block)
  {
    hide Convert, ShuffleEpi8, MulloEpi16, SetEpi8, SetEpi16;
    var lower: M128, upper: M128 := block[..16], block[10..];
    assert StepToUyvy8(block) == Ssse3.StepToUyvy8(lower)[..8] + Ssse3.StepToUyvy8(upper)[..8];
    Ssse3.TwoGroupsToUyvy8(lower);
    Ssse3.TwoGroupsToUyvy8(upper);
    assert lower[..10] == block[..10];
    FourGroups(ToUyvy8, block);
  }

  // ---------------------------------------------------------------- The loops

  method Pg10ToUyvy10(src: seq<Byte>, dst: array<Byte>, at: nat)
    requires |src| % 5 == 0 && at + |src| <= dst.Length
    modifies dst
    ensures Stored(old(dst[..]), dst[..], at, Convert(ToUyvy10, src))
  {
    hide Group, Convert, Stored, PixConv.Progress, StepToUyvy10;
    ghost var pre := dst[..];
    var done := 0;
    PixConv.ProgressStart(ToUyvy10, src, pre, at);
    while |src| - done >= 30
      invariant 0 <= done <= |src| && done % 5 == 0
      invariant PixConv.Progress(ToUyvy10, src, pre, dst[..], at, done)
    {
      var block := src[done..done + 26];
      var bytes := StepToUyvy10(block);
      FourGroupsToUyvy10(block);
      PixConv.RoomLeft(ToUyvy10, src, done, 6);
      assert block[..20] == src[done..done + 20];
      PixConv.StoreStep(ToUyvy10, src, pre, dst, at, done, 20, bytes);
      done := done + 20;
    }
    ghost var before := dst[..];
    Ssse3.Pg10ToUyvy10(src[done..], dst, at + done);
    PixConv.RestStored(ToUyvy10, src, pre, before, dst[..], at, done);
  }

  method Pg10ToUyvy8(src: seq<Byte>, dst: array<Byte>, at: nat)
    requires |src| % 5 == 0 && at + |src| / 5 * 4 <= dst.Length
    modifies dst
    ensures Stored(old(dst[..]), dst[..], at, Convert(ToUyvy8, src))
  {
    hide Group, Convert, Stored, PixConv.Progress, StepToUyvy8;
    ghost var pre := dst[..];
    var done := 0;
    PixConv.ProgressStart(ToUyvy8, src, pre, at);
    while |src| - done >= 30
      invariant 0 <= done <= |src| && done % 5 == 0
      invariant PixConv.Progress(ToUyvy8, src, pre, dst[..], at, done)
    {
      var block := src[done..done + 26];
      var bytes := StepToUyvy8(block);
      FourGroupsToUyvy8(block);
      PixConv.RoomLeft(ToUyvy8, src, done, 6);
      assert block[..20] == src[done..done + 20];
      PixConv.StoreStep(ToUyvy8, src, pre, dst, at, done, 20, bytes);
      done := done + 20;
    }
    ghost var before := dst[..];
    Ssse3.Pg10ToUyvy8(src[done..], dst, at + done / 5 * 4);
    PixConv.RestStored(ToUyvy8, src, pre, before, dst[..], at, done);
  }

  method Uyvy10ToPg10(src: seq<Byte>, dst: array<Byte>, at: nat)
    requires |src| % 5 == 0 && at + |src| <= dst.Length
    modifies dst
    ensures Stored(old(dst[..]), dst[..], at, Convert(ToPg10, src))
  {
    hide Group, Convert, Stored, PixConv.Progress, StepToPg10;
    ghost var pre := dst[..];
    var done := 0;
    PixConv.ProgressStart(ToPg10, src, pre, at);
    while |src| - done >= 30
      invariant 0 <= done <= |src| && done % 5 == 0
      invariant PixConv.Progress(ToPg10, src, pre, dst[..], at, done)
    {
      var block := src[done..done + 26];
      var bytes := StepToPg10(block);
      FourGroupsToPg10(block);
      PixConv.RoomLeft(ToPg10, src, done, 6);
      assert block[..20] == src[done..done + 20];
      PixConv.StoreStep(ToPg10, src, pre, dst, at, done, 20, bytes);
      done := done + 20;
    }
    ghost var before := dst[..];
    Ssse3.Uyvy10ToPg10(src[done..], dst, at + done);
    PixConv.RestStored(ToPg10, src, pre, before, dst[..], at, done);
  }

  /** The planar conversion stays the SSSE3 one. */
  method Uyvy8ToYuv422p(src: seq<Byte>, dst: array<Byte>, y: nat, u: nat, v: nat)
    requires |src| % 4 == 0 && PixConv.PlanesApart(dst.Length, y, u, v, |src| / 4)
    modifies dst
    ensures PixConv.InPlanes(src, dst[..], y, u, v, 0, |src| / 4)
    ensures PixConv.OutsidePlanes(old(dst[..]), dst[..], y, u, v, |src| / 4)
  {
    Ssse3.Uyvy8ToYuv422p(src, dst, y, u, v);
  }
}
