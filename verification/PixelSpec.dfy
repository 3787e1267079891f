// The pixel conversions as statements about samples.

/**
 * An ST 2110-20 pixel group of 4:2:2 10-bit video is five bytes: four 10-bit samples,
 * first sample and most significant bit first. UYVY 10 packs the same four samples least
 * significant bit first, and UYVY 8 keeps the eight highest bits of each.
 */
module PixelSpec {
  import opened Bytes

  // The samples of a big-endian group: ten bits each, from bit 0, 10, 20 and 30.
  function Be0(b0: Byte, b1: Byte): bv16 { ((b0 as bv16) << 2) | ((b1 as bv16) >> 6) }
  function Be1(b1: Byte, b2: Byte): bv16 { (((b1 as bv16) & 0x3F) << 4) | ((b2 as bv16) >> 4) }
  function Be2(b2: Byte, b3: Byte): bv16 { (((b2 as bv16) & 0x0F) << 6) | ((b3 as bv16) >> 2) }
  function Be3(b3: Byte, b4: Byte): bv16 { (((b3 as bv16) & 0x03) << 8) | (b4 as bv16) }

  // The samples of a little-endian group.
  function Le0(b0: Byte, b1: Byte): bv16 { (b0 as bv16) | (((b1 as bv16) & 0x03) << 8) }
  function Le1(b1: Byte, b2: Byte): bv16 { ((b1 as bv16) >> 2) | (((b2 as bv16) & 0x0F) << 6) }
  function Le2(b2: Byte, b3: Byte): bv16 { ((b2 as bv16) >> 4) | (((b3 as bv16) & 0x3F) << 4) }
  function Le3(b3: Byte, b4: Byte): bv16 { ((b3 as bv16) >> 6) | ((b4 as bv16) << 2) }

  /** Sample k of a pixel group. */
  function SampleBe(g: seq<Byte>, k: nat): bv16
    requires |g| == 5 && k < 4
  {
    match k
    case 0 => Be0(g[0], g[1])
    case 1 => Be1(g[1], g[2])
    case 2 => Be2(g[2], g[3])
    case 3 => Be3(g[3], g[4])
  }

  /** Sample k of a UYVY 10 group. */
  function SampleLe(g: seq<Byte>, k: nat): bv16
    requires |g| == 5 && k < 4
  {
    match k
    case 0 => Le0(g[0], g[1])
    case 1 => Le1(g[1], g[2])
    case 2 => Le2(g[2], g[3])
    case 3 => Le3(g[3], g[4])
  }

  // Byte k of a number, byte 0 lowest.
  function Low8(v: bv16): Byte { (v & 0xFF) as bv8 }

  // The eight highest bits of a sample, and what makes a number a sample.
  function Top8(s: bv16): Byte { ((s >> 2) & 0xFF) as bv8 }
  predicate TenBits(s: bv16) { s <= 0x3FF }

  // The bytes of four samples in each order, as far as a byte depends on them.
  function Pack1Le(s0: bv16, s1: bv16): Byte { Low8((s0 >> 8) | (s1 << 2)) }
  function Pack2Le(s1: bv16, s2: bv16): Byte { Low8((s1 >> 6) | (s2 << 4)) }
  function Pack3Le(s2: bv16, s3: bv16): Byte { Low8((s2 >> 4) | (s3 << 6)) }
  function Pack1Be(s0: bv16, s1: bv16): Byte { Low8((s0 << 6) | (s1 >> 4)) }
  function Pack2Be(s1: bv16, s2: bv16): Byte { Low8((s1 << 4) | (s2 >> 6)) }
  function Pack3Be(s2: bv16, s3: bv16): Byte { Low8((s2 << 2) | (s3 >> 8)) }

  /** What a conversion makes of pixel groups. */
  datatype Conv = ToUyvy10 | ToUyvy8 | ToPg10

  /** One pixel group converted. */
  function Group(c: Conv, g: seq<Byte>): (r: seq<Byte>)
    requires |g| == 5
    ensures |r| == if c == ToUyvy8 then 4 else 5
  {
    match c
    case ToUyvy10 =>
      var s0, s1 := Be0(g[0], g[1]), Be1(g[1], g[2]);
      var s2, s3 := Be2(g[2], g[3]), Be3(g[3], g[4]);
      [Low8(s0), Pack1Le(s0, s1), Pack2Le(s1, s2), Pack3Le(s2, s3), Top8(s3)]
    case ToPg10 =>
      var s0, s1 := Le0(g[0], g[1]), Le1(g[1], g[2]);
      var s2, s3 := Le2(g[2], g[3]), Le3(g[3], g[4]);
      [Top8(s0), Pack1Be(s0, s1), Pack2Be(s1, s2), Pack3Be(s2, s3), Low8(s3)]
    case ToUyvy8 =>
      [Top8(Be0(g[0], g[1])), Top8(Be1(g[1], g[2])),
       Top8(Be2(g[2], g[3])), Top8(Be3(g[3], g[4]))]
  }

  // Packing and unpacking, on single bytes.
  lemma PackedLe(s0: bv16, s1: bv16, s2: bv16, s3: bv16)
    requires TenBits(s0) && TenBits(s1) && TenBits(s2) && TenBits(s3)
    ensures Le0(Low8(s0), Pack1Le(s0, s1)) == s0
    ensures Le1(Pack1Le(s0, s1), Pack2Le(s1, s2)) == s1
    ensures Le2(Pack2Le(s1, s2), Pack3Le(s2, s3)) == s2
    ensures Le3(Pack3Le(s2, s3), Top8(s3)) == s3
  {
  }

  lemma PackedBe(s0: bv16, s1: bv16, s2: bv16, s3: bv16)
    requires TenBits(s0) && TenBits(s1) && TenBits(s2) && TenBits(s3)
    ensures Be0(Top8(s0), Pack1Be(s0, s1)) == s0
    ensures Be1(Pack1Be(s0, s1), Pack2Be(s1, s2)) == s1
    ensures Be2(Pack2Be(s1, s2), Pack3Be(s2, s3)) == s2
    ensures Be3(Pack3Be(s2, s3), Low8(s3)) == s3
  {
  }

  lemma RepackedLe(b0: Byte, b1: Byte, b2: Byte, b3: Byte, b4: Byte)
    ensures TenBits(Le0(b0, b1)) && TenBits(Le1(b1, b2))
    ensures TenBits(Le2(b2, b3)) && TenBits(Le3(b3, b4))
    ensures Low8(Le0(b0, b1)) == b0
    ensures Pack1Le(Le0(b0, b1), Le1(b1, b2)) == b1
    ensures Pack2Le(Le1(b1, b2), Le2(b2, b3)) == b2
    ensures Pack3Le(Le2(b2, b3), Le3(b3, b4)) == b3
    ensures Top8(Le3(b3, b4)) == b4
  {
  }

  lemma RepackedBe(b0: Byte, b1: Byte, b2: Byte, b3: Byte, b4: Byte)
    ensures TenBits(Be0(b0, b1)) && TenBits(Be1(b1, b2))
    ensures TenBits(Be2(b2, b3)) && TenBits(Be3(b3, b4))
    ensures Top8(Be0(b0, b1)) == b0
    ensures Pack1Be(Be0(b0, b1), Be1(b1, b2)) == b1
    ensures Pack2Be(Be1(b1, b2), Be2(b2, b3)) == b2
    ensures Pack3Be(Be2(b2, b3), Be3(b3, b4)) == b3
    ensures Low8(Be3(b3, b4)) == b4
  {
  }

  /** A converted group holds the samples of the group it came from. */
  lemma ToUyvy10KeepsSamples(g: seq<Byte>, k: nat)
    requires |g| == 5 && k < 4
    ensures SampleLe(Group(ToUyvy10, g), k) == SampleBe(g, k)
  {
    hide Be0, Be1, Be2, Be3, Le0, Le1, Le2, Le3, Low8, Top8, TenBits;
    hide Pack1Le, Pack2Le, Pack3Le, Pack1Be, Pack2Be, Pack3Be;
    RepackedBe(g[0], g[1], g[2], g[3], g[4]);
    PackedLe(Be0(g[0], g[1]), Be1(g[1], g[2]), Be2(g[2], g[3]), Be3(g[3], g[4]));
  }

  lemma ToPg10KeepsSamples(g: seq<Byte>, k: nat)
    requires |g| == 5 && k < 4
    ensures SampleBe(Group(ToPg10, g), k) == SampleLe(g, k)
  {
    hide Be0, Be1, Be2, Be3, Le0, Le1, Le2, Le3, Low8, Top8, TenBits;
    hide Pack1Le, Pack2Le, Pack3Le, Pack1Be, Pack2Be, Pack3Be;
    RepackedLe(g[0], g[1], g[2], g[3], g[4]);
    PackedBe(Le0(g[0], g[1]), Le1(g[1], g[2]), Le2(g[2], g[3]), Le3(g[3], g[4]));
  }

  /** The two 10-bit conversions of a group undo each other. */
  lemma ToUyvy10UndoesToPg10(g: seq<Byte>)
    requires |g| == 5
    ensures Group(ToUyvy10, Group(ToPg10, g)) == g
  {
    hide Be0, Be1, Be2, Be3, Le0, Le1, Le2, Le3, Low8, Top8, TenBits;
    hide Pack1Le, Pack2Le, Pack3Le, Pack1Be, Pack2Be, Pack3Be;
    RepackedLe(g[0], g[1], g[2], g[3], g[4]);
    PackedBe(Le0(g[0], g[1]), Le1(g[1], g[2]), Le2(g[2], g[3]), Le3(g[3], g[4]));
  }

  lemma ToPg10UndoesToUyvy10(g: seq<Byte>)
    requires |g| == 5
    ensures Group(ToPg10, Group(ToUyvy10, g)) == g
  {
    hide Be0, Be1, Be2, Be3, Le0, Le1, Le2, Le3, Low8, Top8, TenBits;
    hide Pack1Le, Pack2Le, Pack3Le, Pack1Be, Pack2Be, Pack3Be;
    RepackedBe(g[0], g[1], g[2], g[3], g[4]);
    PackedLe(Be0(g[0], g[1]), Be1(g[1], g[2]), Be2(g[2], g[3]), Be3(g[3], g[4]));
  }

  /** Whole pixel groups converted; an incomplete group at the end is left out. */
  function Convert(c: Conv, src: seq<Byte>): (r: seq<Byte>)
    ensures |r| == if c == ToUyvy8 then |src| / 5 * 4 else |src| / 5 * 5
  {
    if |src| < 5 then [] else Group(c, src[..5]) + Convert(c, src[5..])
  }

  /** Converting whole groups piece by piece is converting them all at once. */
  lemma {:induction false} ConvertConcat(c: Conv, a: seq<Byte>, b: seq<Byte>)
    requires |a| % 5 == 0
    ensures Convert(c, a + b) == Convert(c, a) + Convert(c, b)
  {
    if a == [] {
      assert a + b == b;
    } else {
      assert (a + b)[..5] == a[..5] && (a + b)[5..] == a[5..] + b;
      ConvertConcat(c, a[5..], b);
    }
  }

  /** The two 10-bit conversions undo each other on whole groups, whichever comes first. */
  lemma {:induction false} ConversionsAreInverse(c: Conv, d: Conv, src: seq<Byte>)
    requires (c == ToPg10 && d == ToUyvy10) || (c == ToUyvy10 && d == ToPg10)
    requires |src| % 5 == 0
    ensures Convert(d, Convert(c, src)) == src
  {
    if src != [] {
      var g, rest := src[..5], src[5..];
      ConversionsAreInverse(c, d, rest);
      ConvertConcat(d, Group(c, g), Convert(c, rest));
      ConvertGroups(d, Group(c, g));
      assert Group(d, Group(c, g)) == g by {
        if c == ToPg10 {
          ToUyvy10UndoesToPg10(g);
        } else {
          ToPg10UndoesToUyvy10(g);
        }
      }
      assert src == g + rest;
    }
  }

  // One group alone, and two groups alone.
  lemma ConvertGroups(c: Conv, g: seq<Byte>)
    ensures |g| == 5 ==> Convert(c, g) == Group(c, g)
    ensures |g| == 10 ==> Convert(c, g) == Group(c, g[..5]) + Group(c, g[5..])
  {
    if |g| == 10 {
      assert g[5..][..5] == g[5..];
      assert Convert(c, g[5..][5..]) == [];
    } else if |g| == 5 {
      assert g[..5] == g;
    }
  }

  /**
   * The planes of UYVY 8: each group of four bytes Cb, Y, Cr, Y gives two bytes of luma and
   * one of each colour difference.
   */
  ghost predicate IsPlanar(src: seq<Byte>, y: seq<Byte>, u: seq<Byte>, v: seq<Byte>)
  {
    var n := |src| / 4;
    && |y| == 2 * n && |u| == n && |v| == n
    && (forall i | 0 <= i < n :: u[i] == src[4 * i])
    && (forall i | 0 <= i < n :: v[i] == src[4 * i + 2])
    && (forall j | 0 <= j < 2 * n :: y[j] == src[2 * j + 1])
  }

  /** Planes of one part of the groups followed by planes of the rest. */
  lemma PlanarConcat(a: seq<Byte>, b: seq<Byte>, ya: seq<Byte>, yb: seq<Byte>, ua: seq<Byte>,
                     ub: seq<Byte>, va: seq<Byte>, vb: seq<Byte>)
    requires |a| % 4 == 0 && IsPlanar(a, ya, ua, va) && IsPlanar(b, yb, ub, vb)
    ensures IsPlanar(a + b, ya + yb, ua + ub, va + vb)
  {
  }
}
