// Source/AvFifo/DtAvPixConv.c: the portable conversions, a word at a time.

module PixConv {
  import opened Bytes
  import opened PixelSpec

  // ---------------------------------------------------------------- Words

  /** The bytes of a word in the other order. */
  function Swap64(value: bv64): bv64 {
    var a := ((value & 0x00FF00FF00FF00FF) << 8) | ((value >> 8) & 0x00FF00FF00FF00FF);
    var b := ((a & 0x0000FFFF0000FFFF) << 16) | ((a >> 16) & 0x0000FFFF0000FFFF);
    (b << 32) | (b >> 32)
  }

  // Five bytes as a number, first byte lowest and first byte highest.
  function Le40(b0: Byte, b1: Byte, b2: Byte, b3: Byte, b4: Byte): bv64 {
    (b0 as bv64) | ((b1 as bv64) << 8) | ((b2 as bv64) << 16) | ((b3 as bv64) << 24)
    | ((b4 as bv64) << 32)
  }

  function Be40(b0: Byte, b1: Byte, b2: Byte, b3: Byte, b4: Byte): bv64 {
    ((b0 as bv64) << 32) | ((b1 as bv64) << 24) | ((b2 as bv64) << 16)
    | ((b3 as bv64) << 8) | (b4 as bv64)
  }

  // The upper bytes of a little-endian word, put over its lower ones.
  function Le64(low: bv64, b5: Byte, b6: Byte, b7: Byte): bv64 {
    low | ((b5 as bv64) << 40) | ((b6 as bv64) << 48) | ((b7 as bv64) << 56)
  }

  /** The little-endian word that eight bytes are. */
  function LoadLe(s: seq<Byte>): bv64
    requires |s| == 8
  {
    Le64(Le40(s[0], s[1], s[2], s[3], s[4]), s[5], s[6], s[7])
  }

  // Byte k of a word, from its lowest.
  function Byte0(v: bv64): Byte { (v & 0xFF) as bv8 }
  function Byte1(v: bv64): Byte { ((v >> 8) & 0xFF) as bv8 }
  function Byte2(v: bv64): Byte { ((v >> 16) & 0xFF) as bv8 }
  function Byte3(v: bv64): Byte { ((v >> 24) & 0xFF) as bv8 }
  function Byte4(v: bv64): Byte { ((v >> 32) & 0xFF) as bv8 }

  // The lowest five bytes of a word, lowest first, and highest first.
  function FiveUp(v: bv64): (r: seq<Byte>)
    ensures |r| == 5
  {
    [Byte0(v), Byte1(v), Byte2(v), Byte3(v), Byte4(v)]
  }

  function FiveDown(v: bv64): (r: seq<Byte>)
    ensures |r| == 5
  {
    [Byte4(v), Byte3(v), Byte2(v), Byte1(v), Byte0(v)]
  }

  /** The eight bytes of a word, lowest byte first. */
  function WordBytes(v: bv64): (r: seq<Byte>)
    ensures |r| == 8 && r[..5] == FiveUp(v)
  {
    FiveUp(v) + [((v >> 40) & 0xFF) as bv8, ((v >> 48) & 0xFF) as bv8, ((v >> 56) & 0xFF) as bv8]
  }

  /** The number that a pixel group is, in network order. */
  function ReadPgroup10(s: seq<Byte>): bv64
    requires |s| == 5
  {
    Be40(s[0], s[1], s[2], s[3], s[4])
  }

  /** Swaps the first sample with the last, and the second with the third. */
  function ReverseSamples10(bits: bv64): bv64 {
    ((bits >> 30) & 0x3FF) | (((bits >> 20) & 0x3FF) << 10)
    | (((bits >> 10) & 0x3FF) << 20) | ((bits & 0x3FF) << 30)
  }

  // The four bytes a step of Pg10ToUyvy8 gathers into a word.
  function Gather8(bits: bv64): bv64 {
    ((bits >> 32) & 0xFF) | ((bits >> 14) & 0xFF00) | ((bits << 4) & 0xFF0000)
    | ((bits << 22) & 0xFF000000)
  }

  // The same bytes, each shifted down by itself.
  function EachHigh8(bits: bv64): seq<Byte> {
    [((bits >> 32) & 0xFF) as bv8, ((bits >> 22) & 0xFF) as bv8,
     ((bits >> 12) & 0xFF) as bv8, ((bits >> 2) & 0xFF) as bv8]
  }

  // ------------------------------------------------- The steps, on single bytes

  lemma SwapDropsThree(b0: Byte, b1: Byte, b2: Byte, b3: Byte, b4: Byte, b5: Byte, b6: Byte,
                       b7: Byte)
    ensures Swap64(Le64(Le40(b0, b1, b2, b3, b4), b5, b6, b7)) >> 24 == Be40(b0, b1, b2, b3, b4)
  {
  }

  lemma ReverseBe(b0: Byte, b1: Byte, b2: Byte, b3: Byte, b4: Byte)
    ensures var w := ReverseSamples10(Be40(b0, b1, b2, b3, b4));
      && Byte0(w) == Low8(Be0(b0, b1)) && Byte1(w) == Pack1Le(Be0(b0, b1), Be1(b1, b2))
      && Byte2(w) == Pack2Le(Be1(b1, b2), Be2(b2, b3))
      && Byte3(w) == Pack3Le(Be2(b2, b3), Be3(b3, b4)) && Byte4(w) == Top8(Be3(b3, b4))
  {
  }

  lemma ReverseLe(b0: Byte, b1: Byte, b2: Byte, b3: Byte, b4: Byte)
    ensures var w := ReverseSamples10(Le40(b0, b1, b2, b3, b4));
      && Byte4(w) == Top8(Le0(b0, b1)) && Byte3(w) == Pack1Be(Le0(b0, b1), Le1(b1, b2))
      && Byte2(w) == Pack2Be(Le1(b1, b2), Le2(b2, b3))
      && Byte1(w) == Pack3Be(Le2(b2, b3), Le3(b3, b4)) && Byte0(w) == Low8(Le3(b3, b4))
  {
  }

  lemma ReverseIgnoresTop(low: bv64, b5: Byte, b6: Byte, b7: Byte)
    ensures ReverseSamples10(Le64(low, b5, b6, b7)) == ReverseSamples10(low)
  {
  }

  lemma SwapTurnsFive(v: bv64)
    ensures var w := Swap64(v << 24);
      && Byte0(w) == Byte4(v) && Byte1(w) == Byte3(v) && Byte2(w) == Byte2(v)
      && Byte3(w) == Byte1(v) && Byte4(w) == Byte0(v)
  {
  }

  lemma GatherBe(b0: Byte, b1: Byte, b2: Byte, b3: Byte, b4: Byte)
    ensures var w := Gather8(Be40(b0, b1, b2, b3, b4));
      && Byte0(w) == Top8(Be0(b0, b1)) && Byte1(w) == Top8(Be1(b1, b2))
      && Byte2(w) == Top8(Be2(b2, b3)) && Byte3(w) == Top8(Be3(b3, b4))
  {
  }

  lemma GatherEach(v: bv64)
    ensures Byte0(Gather8(v)) == ((v >> 32) & 0xFF) as bv8
    ensures Byte1(Gather8(v)) == ((v >> 22) & 0xFF) as bv8
    ensures Byte2(Gather8(v)) == ((v >> 12) & 0xFF) as bv8
    ensures Byte3(Gather8(v)) == ((v >> 2) & 0xFF) as bv8
  {
  }

  // ------------------------------------------------- The steps, on groups

  /** A word step of Pg10ToUyvy10 stores a converted group at the start of its eight bytes. */
  lemma WordStepToUyvy10(s: seq<Byte>)
    requires |s| == 8
    ensures Group(ToUyvy10, s[..5]) <= WordBytes(ReverseSamples10(Swap64(LoadLe(s)) >> 24))
  {
    SwapDropsThree(s[0], s[1], s[2], s[3], s[4], s[5], s[6], s[7]);
    ReverseBe(s[0], s[1], s[2], s[3], s[4]);
  }

  /** A word step of Pg10ToUyvy8 stores the eight highest bits of each sample. */
  lemma WordStepToUyvy8(s: seq<Byte>)
    requires |s| == 8
    ensures FiveUp(Gather8(Swap64(LoadLe(s)) >> 24))[..4] == Group(ToUyvy8, s[..5])
  {
    SwapDropsThree(s[0], s[1], s[2], s[3], s[4], s[5], s[6], s[7]);
    GatherBe(s[0], s[1], s[2], s[3], s[4]);
  }

  /** A word step of Uyvy10ToPg10: three bytes too many are loaded, and dropped again. */
  lemma WordStepToPg10(s: seq<Byte>)
    requires |s| == 8
    ensures Group(ToPg10, s[..5]) <= WordBytes(Swap64(ReverseSamples10(LoadLe(s)) << 24))
  {
    var low := Le40(s[0], s[1], s[2], s[3], s[4]);
    ReverseIgnoresTop(low, s[5], s[6], s[7]);
    ReverseLe(s[0], s[1], s[2], s[3], s[4]);
    SwapTurnsFive(ReverseSamples10(low));
  }

  /** And the byte loops store converted groups. */
  lemma ByteStepToUyvy10(g: seq<Byte>)
    requires |g| == 5
    ensures FiveUp(ReverseSamples10(ReadPgroup10(g))) == Group(ToUyvy10, g)
  {
    ReverseBe(g[0], g[1], g[2], g[3], g[4]);
  }

  lemma ByteStepToUyvy8(g: seq<Byte>)
    requires |g| == 5
    ensures EachHigh8(ReadPgroup10(g)) == Group(ToUyvy8, g)
  {
    GatherBe(g[0], g[1], g[2], g[3], g[4]);
    GatherEach(Be40(g[0], g[1], g[2], g[3], g[4]));
  }

  lemma ByteStepToPg10(g: seq<Byte>)
    requires |g| == 5
    ensures FiveDown(ReverseSamples10(Le40(g[0], g[1], g[2], g[3], g[4]))) == Group(ToPg10, g)
  {
    ReverseLe(g[0], g[1], g[2], g[3], g[4]);
  }

  // ---------------------------------------------------------------- The loops

  /**
   * How far a conversion of src to position at is, with done bytes of it taken: their
   * conversion is stored, followed by whatever a step wrote too much, and nothing is
   * written past the room of the whole conversion.
   */
  ghost predicate Progress(c: Conv, src: seq<Byte>, pre: seq<Byte>, now: seq<Byte>, at: nat,
                           done: nat)
  {
    var end := at + |Convert(c, src)|;
    && done <= |src| && done % 5 == 0
    && at + |Convert(c, src[..done])| <= end <= |pre| == |now|
    && now[..at + |Convert(c, src[..done])|] == pre[..at] + Convert(c, src[..done])
    && now[end..] == pre[end..]
  }

  // Nothing is done at first.
  lemma ProgressStart(c: Conv, src: seq<Byte>, pre: seq<Byte>, at: nat)
    requires at + |Convert(c, src)| <= |pre|
    ensures Progress(c, src, pre, pre, at, 0)
  {
    assert pre[..at] + [] == pre[..at];
  }

  // A store behind what is done, of at least y, within the room up to end.
  lemma StoredNext(pre: seq<Byte>, before: seq<Byte>, after: seq<Byte>, at: nat, end: nat,
                   x: seq<Byte>, y: seq<Byte>, bytes: seq<Byte>)
    requires at + |x| + |bytes| <= end <= |pre| == |before| && y <= bytes
    requires before[..at + |x|] == pre[..at] + x && before[end..] == pre[end..]
    requires Stored(before, after, at + |x|, bytes)
    ensures |after| == |pre|
    ensures after[..at + |x| + |y|] == pre[..at] + (x + y) && after[end..] == pre[end..]
  {
    hide Stored;
    StoredPrefix(before, after, at + |x|, bytes, y);
    StoredSuffix(before, after, at + |x|, bytes, end);
    assert pre[..at] + x + y == pre[..at] + (x + y);
  }

  // The room the conversion of the groups still to do needs.
  lemma RoomLeft(c: Conv, src: seq<Byte>, done: nat, groups: nat)
    requires done % 5 == 0 && done + 5 * groups <= |src|
    ensures |Convert(c, src[..done])| + (if c == ToUyvy8 then 4 * groups else 5 * groups)
         <= |Convert(c, src)|
  {
  }

  // Storing the conversion of the next m bytes, and perhaps more where more is to come.
  lemma ProgressStep(c: Conv, src: seq<Byte>, pre: seq<Byte>, before: seq<Byte>,
                     after: seq<Byte>, at: nat, done: nat, m: nat, bytes: seq<Byte>)
    requires Progress(c, src, pre, before, at, done)
    requires done + m <= |src| && m % 5 == 0
    requires Convert(c, src[done..done + m]) <= bytes
    requires |Convert(c, src[..done])| + |bytes| <= |Convert(c, src)|
    requires Stored(before, after, at + |Convert(c, src[..done])|, bytes)
    ensures Progress(c, src, pre, after, at, done + m)
  {
    hide Group, Convert, Stored;
    var x, y := Convert(c, src[..done]), Convert(c, src[done..done + m]);
    StoredNext(pre, before, after, at, at + |Convert(c, src)|, x, y, bytes);
    assert Convert(c, src[..done + m]) == x + y by {
      assert src[..done + m] == src[..done] + src[done..done + m];
      ConvertConcat(c, src[..done], src[done..done + m]);
    }
  }

  // Stores the conversion of the next m bytes.
  method StoreStep(c: Conv, ghost src: seq<Byte>, ghost pre: seq<Byte>, dst: array<Byte>, at: nat,
                   done: nat, ghost m: nat, bytes: seq<Byte>)
    requires Progress(c, src, pre, dst[..], at, done)
    requires done + m <= |src| && m % 5 == 0
    requires Convert(c, src[done..done + m]) <= bytes
    requires |Convert(c, src[..done])| + |bytes| <= |Convert(c, src)|
    modifies dst
    ensures Progress(c, src, pre, dst[..], at, done + m)
  {
    hide Group, Convert, Stored;
    ghost var before := dst[..];
    Store(dst, at + if c == ToUyvy8 then done / 5 * 4 else done, bytes);
    ProgressStep(c, src, pre, before, dst[..], at, done, m, bytes);
  }

  // Storing the next group.
  lemma GroupStored(c: Conv, src: seq<Byte>, pre: seq<Byte>, before: seq<Byte>,
                    after: seq<Byte>, at: nat, done: nat, bytes: seq<Byte>)
    requires Progress(c, src, pre, before, at, done)
    requires done + 5 <= |src| && Group(c, src[done..done + 5]) <= bytes
    requires |Convert(c, src[..done])| + |bytes| <= |Convert(c, src)|
    requires Stored(before, after, at + |Convert(c, src[..done])|, bytes)
    ensures Progress(c, src, pre, after, at, done + 5)
  {
    hide Progress, Stored, Group;
    ConvertGroups(c, src[done..done + 5]);
    ProgressStep(c, src, pre, before, after, at, done, 5, bytes);
  }

  // With everything done, the conversion is stored and nothing around it is changed.
  lemma ProgressDone(c: Conv, src: seq<Byte>, pre: seq<Byte>, now: seq<Byte>, at: nat)
    requires Progress(c, src, pre, now, at, |src|)
    ensures Stored(pre, now, at, Convert(c, src))
  {
    assert src[..|src|] == src;
    var end := at + |Convert(c, src)|;
    assert now == now[..end] + now[end..];
  }

  // Another conversion storing all that is left.
  lemma RestStored(c: Conv, src: seq<Byte>, pre: seq<Byte>, before: seq<Byte>,
                   after: seq<Byte>, at: nat, done: nat)
    requires |src| % 5 == 0 && Progress(c, src, pre, before, at, done)
    requires Stored(before, after, at + |Convert(c, src[..done])|, Convert(c, src[done..]))
    ensures Stored(pre, after, at, Convert(c, src))
  {
    hide Group, Stored, Convert;
    assert src[done..done + (|src| - done)] == src[done..];
    assert src == src[..done] + src[done..];
    ConvertConcat(c, src[..done], src[done..]);
    ProgressStep(c, src, pre, before, after, at, done, |src| - done, Convert(c, src[done..]));
    ProgressDone(c, src, pre, after, at);
  }

  method Pg10ToUyvy10(src: seq<Byte>, dst: array<Byte>, at: nat)
    requires |src| % 5 == 0 && at + |src| <= dst.Length
    modifies dst
    ensures Stored(old(dst[..]), dst[..], at, Convert(ToUyvy10, src))
  {
    hide Group, Convert, Progress, Stored, Swap64, LoadLe, WordBytes, FiveUp, FiveDown;
    hide EachHigh8, Gather8, ReverseSamples10, ReadPgroup10, Le40;
    ghost var pre := dst[..];
    var done := 0;
    ProgressStart(ToUyvy10, src, pre, at);
    while |src| - done >= 10
      invariant 0 <= done <= |src| && done % 5 == 0
      invariant Progress(ToUyvy10, src, pre, dst[..], at, done)
    {
      ghost var before := dst[..];
      var block := src[done..done + 8];
      var word := WordBytes(ReverseSamples10(Swap64(LoadLe(block)) >> 24));
      WordStepToUyvy10(block);
      assert block[..5] == src[done..done + 5];
      Store(dst, at + done, word);
      GroupStored(ToUyvy10, src, pre, before, dst[..], at, done, word);
      done := done + 5;
    }
    while done < |src|
      invariant 0 <= done <= |src| && done % 5 == 0
      invariant Progress(ToUyvy10, src, pre, dst[..], at, done)
    {
      ghost var before := dst[..];
      var group := src[done..done + 5];
      var bytes := FiveUp(ReverseSamples10(ReadPgroup10(group)));
      ByteStepToUyvy10(group);
      Store(dst, at + done, bytes);
      GroupStored(ToUyvy10, src, pre, before, dst[..], at, done, bytes);
      done := done + 5;
    }
    ProgressDone(ToUyvy10, src, pre, dst[..], at);
  }

  method Pg10ToUyvy8(src: seq<Byte>, dst: array<Byte>, at: nat)
    requires |src| % 5 == 0 && at + |src| / 5 * 4 <= dst.Length
    modifies dst
    ensures Stored(old(dst[..]), dst[..], at, Convert(ToUyvy8, src))
  {
    hide Group, Convert, Progress, Stored, Swap64, LoadLe, WordBytes, FiveUp, FiveDown;
    hide EachHigh8, Gather8, ReverseSamples10, ReadPgroup10, Le40;
    ghost var pre := dst[..];
    var done := 0;
    ProgressStart(ToUyvy8, src, pre, at);
    while |src| - done >= 10
      invariant 0 <= done <= |src| && done % 5 == 0
      invariant Progress(ToUyvy8, src, pre, dst[..], at, done)
    {
      ghost var before := dst[..];
      var block := src[done..done + 8];
      var bytes := FiveUp(Gather8(Swap64(LoadLe(block)) >> 24))[..4];
      WordStepToUyvy8(block);
      assert block[..5] == src[done..done + 5];
      Store(dst, at + done / 5 * 4, bytes);
      GroupStored(ToUyvy8, src, pre, before, dst[..], at, done, bytes);
      done := done + 5;
    }
    while done < |src|
      invariant 0 <= done <= |src| && done % 5 == 0
      invariant Progress(ToUyvy8, src, pre, dst[..], at, done)
    {
      ghost var before := dst[..];
      var group := src[done..done + 5];
      var bytes := EachHigh8(ReadPgroup10(group));
      ByteStepToUyvy8(group);
      Store(dst, at + done / 5 * 4, bytes);
      GroupStored(ToUyvy8, src, pre, before, dst[..], at, done, bytes);
      done := done + 5;
    }
    ProgressDone(ToUyvy8, src, pre, dst[..], at);
  }

  method Uyvy10ToPg10(src: seq<Byte>, dst: array<Byte>, at: nat)
    requires |src| % 5 == 0 && at + |src| <= dst.Length
    modifies dst
    ensures Stored(old(dst[..]), dst[..], at, Convert(ToPg10, src))
  {
    hide Group, Convert, Progress, Stored, Swap64, LoadLe, WordBytes, FiveUp, FiveDown;
    hide EachHigh8, Gather8, ReverseSamples10, ReadPgroup10, Le40;
    ghost var pre := dst[..];
    var done := 0;
    ProgressStart(ToPg10, src, pre, at);
    while |src| - done >= 10
      invariant 0 <= done <= |src| && done % 5 == 0
      invariant Progress(ToPg10, src, pre, dst[..], at, done)
    {
      ghost var before := dst[..];
      var block := src[done..done + 8];
      var word := WordBytes(Swap64(ReverseSamples10(LoadLe(block)) << 24));
      WordStepToPg10(block);
      assert block[..5] == src[done..done + 5];
      Store(dst, at + done, word);
      GroupStored(ToPg10, src, pre, before, dst[..], at, done, word);
      done := done + 5;
    }
    while done < |src|
      invariant 0 <= done <= |src| && done % 5 == 0
      invariant Progress(ToPg10, src, pre, dst[..], at, done)
    {
      ghost var before := dst[..];
      var g := src[done..done + 5];
      var bytes := FiveDown(ReverseSamples10(Le40(g[0], g[1], g[2], g[3], g[4])));
      ByteStepToPg10(g);
      Store(dst, at + done, bytes);
      GroupStored(ToPg10, src, pre, before, dst[..], at, done, bytes);
      done := done + 5;
    }
    ProgressDone(ToPg10, src, pre, dst[..], at);
  }

  /** Nothing is written outside three planes of n groups. */
  ghost predicate OutsidePlanes(pre: seq<Byte>, now: seq<Byte>, y: nat, u: nat, v: nat, n: nat)
  {
    && |pre| == |now|
    && forall j | 0 <= j < |now| && !(y <= j < y + 2 * n) && !(u <= j < u + n) && !(v <= j < v + n)
         :: now[j] == pre[j]
  }

  /** The planes of groups from..to are where they belong in three planes that start at y, u, v. */
  ghost predicate InPlanes(src: seq<Byte>, now: seq<Byte>, y: nat, u: nat, v: nat, from: nat,
                           to: nat)
  {
    && from <= to && 4 * to <= |src|
    && y + 2 * to <= |now| && u + to <= |now| && v + to <= |now|
    && IsPlanar(src[4 * from..4 * to], now[y + 2 * from..y + 2 * to], now[u + from..u + to],
                now[v + from..v + to])
  }

  /** Three planes in a buffer do not overlap. */
  predicate PlanesApart(size: nat, y: nat, u: nat, v: nat, n: nat) {
    y + 2 * n <= u && u + n <= v && v + n <= size
  }

  // The planes of more groups, written behind those written already.
  lemma MorePlanes(src: seq<Byte>, pre: seq<Byte>, now: seq<Byte>, y: nat, u: nat, v: nat,
                   i: nat, m: nat, n: nat)
    requires PlanesApart(|pre|, y, u, v, n) && i + m <= n
    requires InPlanes(src, pre, y, u, v, 0, i) && InPlanes(src, now, y, u, v, i, i + m)
    requires OutsidePlanes(pre, now, y + 2 * i, u + i, v + i, m)
    ensures InPlanes(src, now, y, u, v, 0, i + m)
  {
    hide IsPlanar;
    assert now[y..y + 2 * i] == pre[y..y + 2 * i];
    assert now[u..u + i] == pre[u..u + i];
    assert now[v..v + i] == pre[v..v + i];
    PlanarConcat(src[..4 * i], src[4 * i..4 * (i + m)],
                 now[y..y + 2 * i], now[y + 2 * i..y + 2 * (i + m)],
                 now[u..u + i], now[u + i..u + i + m], now[v..v + i], now[v + i..v + i + m]);
    assert src[..4 * (i + m)] == src[..4 * i] + src[4 * i..4 * (i + m)];
    assert now[y..y + 2 * (i + m)] == now[y..y + 2 * i] + now[y + 2 * i..y + 2 * (i + m)];
    assert now[u..u + i + m] == now[u..u + i] + now[u + i..u + i + m];
    assert now[v..v + i + m] == now[v..v + i] + now[v + i..v + i + m];
  }

  // Writing within planes is writing within larger planes around them.
  lemma StillOutside(pre: seq<Byte>, mid: seq<Byte>, now: seq<Byte>, y: nat, u: nat, v: nat,
                     i: nat, m: nat, n: nat)
    requires OutsidePlanes(pre, mid, y, u, v, n) && i + m <= n
    requires OutsidePlanes(mid, now, y + 2 * i, u + i, v + i, m)
    ensures OutsidePlanes(pre, now, y, u, v, n)
  {
  }

  /** The planes are written one group at a time; y, u and v are where each plane starts. */
  method Uyvy8ToYuv422p(src: seq<Byte>, dst: array<Byte>, y: nat, u: nat, v: nat)
    requires |src| % 4 == 0 && PlanesApart(dst.Length, y, u, v, |src| / 4)
    modifies dst
    ensures InPlanes(src, dst[..], y, u, v, 0, |src| / 4)
    ensures OutsidePlanes(old(dst[..]), dst[..], y, u, v, |src| / 4)
  {
    hide InPlanes, OutsidePlanes;
    ghost var pre := dst[..];
    var i, n := 0, |src| / 4;
    NoPlanes(src, pre, y, u, v, n);
    while i < n
      invariant i <= n
      invariant InPlanes(src, dst[..], y, u, v, 0, i)
      invariant OutsidePlanes(pre, dst[..], y, u, v, n)
    {
      ghost var before := dst[..];
      PlanarStep(src, dst, y, u, v, i);
      MorePlanes(src, before, dst[..], y, u, v, i, 1, n);
      StillOutside(pre, before, dst[..], y, u, v, i, 1, n);
      i := i + 1;
    }
  }

  lemma NoPlanes(src: seq<Byte>, pre: seq<Byte>, y: nat, u: nat, v: nat, n: nat)
    requires PlanesApart(|pre|, y, u, v, n)
    ensures InPlanes(src, pre, y, u, v, 0, 0) && OutsidePlanes(pre, pre, y, u, v, n)
  {
  }

  // One group to its places in the planes.
  method PlanarStep(src: seq<Byte>, dst: array<Byte>, y: nat, u: nat, v: nat, i: nat)
    requires i < |src| / 4 && PlanesApart(dst.Length, y, u, v, i + 1)
    modifies dst
    ensures InPlanes(src, dst[..], y, u, v, i, i + 1)
    ensures OutsidePlanes(old(dst[..]), dst[..], y + 2 * i, u + i, v + i, 1)
  {
    dst[u + i] := src[4 * i];
    dst[y + 2 * i] := src[4 * i + 1];
    dst[v + i] := src[4 * i + 2];
    dst[y + 2 * i + 1] := src[4 * i + 3];
  }
}
