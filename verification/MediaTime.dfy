// Source/AvFifo/DtAvTime.c: 128-bit arithmetic, times on a grid, and RTP timestamps.

/** Unsigned 64-bit numbers are integers below W64; what the C wraps is written with %. */
module MediaTime {
  import opened Arithmetic

  const VIDEO_RTP_RATE: nat := 90_000

  // ---------------------------------------------------------------- 128 bits

  // The product of two numbers, from their halves.
  lemma ProductOfHalves(a0: nat, a1: nat, b0: nat, b1: nat)
    ensures (a1 * W32 + a0) * (b1 * W32 + b0)
         == a1 * b1 * W64 + (a0 * b1 + a1 * b0) * W32 + a0 * b0
  {
    calc {
      (a1 * W32 + a0) * (b1 * W32 + b0);
      (a1 * W32 + a0) * (b1 * W32) + (a1 * W32 + a0) * b0;
      (a1 * W32) * (b1 * W32) + a0 * (b1 * W32) + (a1 * W32) * b0 + a0 * b0;
      { assert (a1 * W32) * (b1 * W32) == a1 * b1 * W64; }
      a1 * b1 * W64 + (a0 * b1 + a1 * b0) * W32 + a0 * b0;
    }
  }

  lemma ProductBound(a: nat, b: nat, m: nat)
    requires a <= m && b <= m
    ensures a * b <= m * m
  {
    MulMonotone(a, m, b);
    MulMonotone(b, m, m);
  }

  // The products of the halves, and what they make up.
  lemma Halves(a: nat, b: nat)
    requires a < W64 && b < W64
    ensures var p00, p01 := (a % W32) * (b % W32), (a % W32) * (b / W32);
      var p10, p11 := (a / W32) * (b % W32), (a / W32) * (b / W32);
      && p00 <= (W32 - 1) * (W32 - 1) && p01 <= (W32 - 1) * (W32 - 1)
      && p10 <= (W32 - 1) * (W32 - 1)
      && a * b == p11 * W64 + (p01 + p10) * W32 + p00
      && a * b <= (W64 - 1) * (W64 - 1)
  {
    ProductBound(a % W32, b % W32, W32 - 1);
    ProductBound(a % W32, b / W32, W32 - 1);
    ProductBound(a / W32, b % W32, W32 - 1);
    ProductBound(a, b, W64 - 1);
    ProductOfHalves(a % W32, a / W32, b % W32, b / W32);
  }

  // The upper word of a number below 2^128 fits a word.
  lemma UpperWordFits(high: nat, low: nat)
    requires high * W64 + low < W64 * W64
    ensures high < W64
  {
  }

  /** a * b as two words of 64 bits. Where the C joins halves with |, they share no bit. */
  method Multiply128(a: nat, b: nat) returns (high: nat, low: nat)
    requires a < W64 && b < W64
    ensures high < W64 && low < W64 && high * W64 + low == a * b
  {
    var p00, p01 := (a % W32) * (b % W32), (a % W32) * (b / W32);
    var p10, p11 := (a / W32) * (b % W32), (a / W32) * (b / W32);
    Halves(a, b);
    high, low := Assemble(p00, p01, p10, p11);
    hide *;
    UpperWordFits(high, low);
  }

  // The four products of halves put together.
  method Assemble(p00: nat, p01: nat, p10: nat, p11: nat) returns (high: nat, low: nat)
    requires p00 / W32 + p01 % W32 + p10 % W32 < W64
    ensures low < W64 && high * W64 + low == p11 * W64 + (p01 + p10) * W32 + p00
  {
    var middle := p00 / W32 + p01 % W32 + p10 % W32;
    low := p00 % W32 + middle * W32 % W64;
    high := p11 + p01 / W32 + p10 / W32 + middle / W32;
    Assembled(p00, p01, p10, p11, middle);
  }

  lemma Assembled(p00: nat, p01: nat, p10: nat, p11: nat, middle: nat)
    requires middle == p00 / W32 + p01 % W32 + p10 % W32
    ensures p00 % W32 + middle * W32 % W64 < W64
    ensures (p11 + p01 / W32 + p10 / W32 + middle / W32) * W64 + (p00 % W32 + middle * W32 % W64)
         == p11 * W64 + (p01 + p10) * W32 + p00
  {
    var q, r := middle / W32, middle % W32;
    assert middle * W32 == q * W64 + r * W32;
    assert middle * W32 % W64 == r * W32;
  }

  /** The exact quotient modulo 2^64. */
  function MulAddDiv(a: nat, b: nat, add: nat, div: nat): nat
    requires div > 0
  {
    (a * b + add) / div % W64
  }

  lemma Pow2Values()
    ensures Pow2(64) == W64 && Pow2(128) == W64 * W64
  {
    Pow2Adds(8, 8);
    assert Pow2(8) == 256;
    Pow2Adds(16, 16);
    Pow2Adds(32, 32);
    Pow2Adds(64, 64);
  }

  // ---------------------------------------------------------------- Bit by bit

  // Bit number bit of a dividend of two words, in its upper and in its lower word.
  lemma BitOfUpper(high: nat, low: nat, bit: nat)
    requires low < W64 && bit >= 64
    ensures (high * W64 + low) / Pow2(bit) == high / Pow2(bit - 64)
  {
    hide Pow2;
    Pow2Values();
    Pow2Adds(64, bit - 64);
    DivDiv(high * W64 + low, W64, Pow2(bit - 64));
  }

  lemma BitOfLower(high: nat, low: nat, p: nat, r: nat)
    requires low < W64 && p > 0 && p * (2 * r) == W64
    ensures (high * W64 + low) / p % 2 == low / p % 2
  {
    var q := low / p;
    DivBounds(low, p);
    var k := 2 * (high * r) + q;
    assert k * p == high * W64 + q * p by {
      assert 2 * (high * r) * p == high * (p * (2 * r));
    }
    DivUnique(high * W64 + low, p, k);
    EvenPlus(high * r, q);
  }

  /** Bit number bit of a dividend of two words. */
  function BitOf(high: nat, low: nat, bit: nat): nat {
    if bit >= 64 then high / Pow2(bit - 64) % 2 else low / Pow2(bit) % 2
  }

  lemma BitOfWords(high: nat, low: nat, bit: nat)
    requires low < W64 && bit < 128
    ensures BitOf(high, low, bit) == (high * W64 + low) / Pow2(bit) % 2
  {
    if bit >= 64 {
      BitOfUpper(high, low, bit);
    } else {
      Pow2Values();
      Pow2Adds(bit, 64 - bit);
      BitOfLower(high, low, Pow2(bit), Pow2(63 - bit));
    }
  }

  lemma EvenPlus(x: int, y: int)
    ensures (2 * x + y) % 2 == y % 2
  {
  }

  // One more bit of a dividend, and the division of what is in the remainder then.
  lemma DivideStep(n: nat, bit: nat, div: nat, q: nat, remainder: nat, next: nat)
    requires div > 0 && remainder < div
    requires n / Pow2(bit + 1) == q * div + remainder
    requires next == n / Pow2(bit) % 2
    ensures var r := 2 * remainder + next;
      if r >= div
      then r - div < div && n / Pow2(bit) == (2 * q + 1) * div + (r - div)
      else n / Pow2(bit) == 2 * q * div + r
  {
    DivDiv(n, Pow2(bit), 2);
    assert Pow2(bit) * 2 == Pow2(bit + 1);
    assert (2 * q + 1) * div == 2 * q * div + div;
  }

  // One more bit of the quotient.
  lemma QuotientStep(q: nat, bit: nat, one: nat)
    requires bit < 128 && one <= 1
    ensures var before := q * Pow2(bit + 1) % W64;
      && (2 * q + one) * Pow2(bit) % W64
         == (if bit < 64 then before + one * Pow2(bit) else before)
      && (bit < 64 ==> before / Pow2(bit) % 2 == 0)
  {
    if bit < 64 {
      QuotientBit(q, bit, one);
    } else {
      NoQuotientBit(q, bit, one);
    }
  }

  lemma QuotientBit(q: nat, bit: nat, one: nat)
    requires bit < 64 && one <= 1
    ensures var before := q * Pow2(bit + 1) % W64;
      && (2 * q + one) * Pow2(bit) % W64 == before + one * Pow2(bit)
      && before / Pow2(bit) % 2 == 0
  {
    Pow2Values();
    Pow2Adds(bit, 64 - bit);
    var p, r := Pow2(bit), Pow2(63 - bit);
    assert Pow2(bit + 1) == 2 * p && Pow2(64 - bit) == 2 * r;
    hide *;
    QuotientOfWord(q, p, r, one);
  }

  lemma QuotientOfWord(q: nat, p: nat, r: nat, one: nat)
    requires p > 0 && r > 0 && p * (2 * r) == W64 && one <= 1
    ensures (2 * q + one) * p % W64 == q * (2 * p) % W64 + one * p
    ensures q * (2 * p) % W64 / p % 2 == 0
  {
    MultipleBelow(q, p, r);
    OneMore(q, one, p);
    AddBelow(q * (2 * p), one * p);
  }

  lemma OneMore(q: nat, one: nat, p: nat)
    requires one <= 1
    ensures (2 * q + one) * p == q * (2 * p) + one * p && one * p <= p
  {
    if one == 0 {
      assert 2 * q * p == q * (2 * p);
    } else {
      assert (2 * q + 1) * p == 2 * q * p + p;
    }
  }

  lemma NoQuotientBit(q: nat, bit: nat, one: nat)
    requires 64 <= bit < 128 && one <= 1
    ensures (2 * q + one) * Pow2(bit) % W64 == q * Pow2(bit + 1) % W64
  {
    Pow2Values();
    Pow2Adds(64, bit - 64);
    var p, k := Pow2(bit), Pow2(bit - 64);
    assert Pow2(bit + 1) == 2 * p && p == W64 * k;
    hide *;
    NoQuotientOfWord(q, p, k, one);
  }

  lemma NoQuotientOfWord(q: nat, p: nat, k: nat, one: nat)
    requires p == W64 * k && one <= 1
    ensures (2 * q + one) * p % W64 == q * (2 * p) % W64
  {
    OneMore(q, one, p);
    AddMultiple(q * (2 * p), one * k);
    assert one * p == one * k * W64;
  }

  // A multiple of 2p, cut to a word 2pr: still a multiple, so that p more fits.
  lemma MultipleBelow(q: nat, p: nat, r: nat)
    requires p > 0 && r > 0 && p * (2 * r) == W64
    ensures var before := q * (2 * p) % W64;
      before + p < W64 && before / p % 2 == 0
  {
    var k, m := q / r, q % r;
    DivBounds(q, r);
    assert q == r * k + m;
    assert q * (2 * p) == k * W64 + m * (2 * p) by {
      assert r * k * (2 * p) == k * (p * (2 * r));
    }
    MulMonotone(m + 1, r, 2 * p);
    assert m * (2 * p) + 2 * p <= W64 by {
      assert (m + 1) * (2 * p) == m * (2 * p) + 2 * p;
      assert r * (2 * p) == p * (2 * r);
    }
    AddMultiple(m * (2 * p), k);
    DivUnique(m * (2 * p), p, 2 * m);
  }

  lemma AddMultiple(x: nat, k: nat)
    ensures (x + k * W64) % W64 == x % W64
  {
  }

  lemma AddBelow(x: nat, y: nat)
    requires x % W64 + y < W64
    ensures (x + y) % W64 == x % W64 + y
  {
  }

  lemma DividendFits(a: nat, b: nat, add: nat)
    requires a < W64 && b < W64 && add < W64
    ensures a * b + add < W64 * W64
  {
    Halves(a, b);
  }

  // Adding to the lower word carries exactly when the sum is below what is added.
  lemma CarryOfSum(low: nat, add: nat)
    requires low < W64 && add < W64
    ensures low + add == (low + add) % W64 + (if (low + add) % W64 < add then W64 else 0)
  {
  }

  /** The dividend with the addend, as two words: the lower one carries into the upper one. */
  method AddToProduct(a: nat, b: nat, add: nat) returns (high: nat, low: nat)
    requires a < W64 && b < W64 && add < W64
    ensures high < W64 && low < W64 && high * W64 + low == a * b + add
  {
    high, low := Multiply128(a, b);
    DividendFits(a, b, add);
    CarryOfSum(low, add);
    low := (low + add) % W64;
    if low < add {
      high := high + 1;
    }
    UpperWordFits(high, low);
  }

  /**
   * The C's MulAddDiv: a dividend of one word directly, a larger one bit by bit, with a
   * remainder whose shift may carry out of the word.
   */
  method ComputeMulAddDiv(a: nat, b: nat, add: nat, div: nat) returns (quotient: nat)
    requires a < W64 && b < W64 && add < W64 && 0 < div < W64
    ensures quotient == MulAddDiv(a, b, add, div)
  {
    var high, low := AddToProduct(a, b, add);
    if high == 0 {
      FirstWordOnly(low, div);
      return low / div;
    }
    quotient := Divide(high, low, div);
  }

  lemma FirstWordOnly(low: nat, div: nat)
    requires low < W64 && div > 0
    ensures low / div % W64 == low / div
  {
    DivBounds(low, div);
    MulMonotone(1, div, low / div);
  }

  /** What the loop keeps: the dividend's upper bits are divided, and the quotient shifted up. */
  ghost predicate Divided(n: nat, div: nat, bit: nat, q: nat, quotient: nat, remainder: nat)
    requires div > 0
  {
    && remainder < div
    && n / Pow2(bit) == q * div + remainder
    && quotient == q * Pow2(bit) % W64
  }

  lemma DivisionStarts(n: nat, div: nat)
    requires n < W64 * W64 && div > 0
    ensures Divided(n, div, 128, 0, 0, 0)
  {
    Pow2Values();
  }

  lemma DivisionStep(n: nat, div: nat, bit: nat, q: nat, quotient: nat, remainder: nat)
    requires div > 0 && bit < 128 && Divided(n, div, bit + 1, q, quotient, remainder)
    ensures n / Pow2(bit) % 2 <= 1
    ensures var r := 2 * remainder + n / Pow2(bit) % 2;
      && (r < div ==> Divided(n, div, bit, 2 * q, quotient, r))
      && (r >= div && bit >= 64 ==> Divided(n, div, bit, 2 * q + 1, quotient, r - div))
      && (r >= div && bit < 64 ==>
            && quotient / Pow2(bit) % 2 == 0
            && Divided(n, div, bit, 2 * q + 1, quotient + Pow2(bit), r - div))
  {
    hide Pow2;
    DivideStep(n, bit, div, q, remainder, n / Pow2(bit) % 2);
    QuotientStep(q, bit, 0);
    QuotientStep(q, bit, 1);
  }

  lemma DivisionEnds(n: nat, div: nat, q: nat, quotient: nat, remainder: nat)
    requires div > 0 && Divided(n, div, 0, q, quotient, remainder)
    ensures quotient == n / div % W64
  {
    DivUnique(n, div, q);
  }

  // The next bit into the remainder, whose shift may carry out of the word.
  method ShiftRemainder(remainder: nat, next: nat, div: nat) returns (isOne: bool, r: nat)
    requires remainder < div < W64 && next <= 1
    ensures isOne <==> 2 * remainder + next >= div
    ensures r == if isOne then 2 * remainder + next - div else 2 * remainder + next
  {
    var carry := remainder >= W64 / 2;
    r := remainder * 2 % W64 + next;
    isOne := carry || r >= div;
    if isOne {
      r := (r - div) % W64;
    }
  }

  method Divide(high: nat, low: nat, div: nat) returns (quotient: nat)
    requires high < W64 && low < W64 && 0 < div < W64
    ensures quotient == (high * W64 + low) / div % W64
  {
    hide Pow2, Divided, BitOf;
    quotient := 0;
    var remainder: nat := 0;
    ghost var n, q: nat := high * W64 + low, 0;
    var bit: nat := 128;
    DivisionStarts(n, div);
    while bit > 0
      invariant bit <= 128 && 0 <= remainder < div
      invariant Divided(n, div, bit, q, quotient, remainder)
    {
      bit := bit - 1;
      var next := BitOf(high, low, bit);
      BitOfWords(high, low, bit);
      DivisionStep(n, div, bit, q, quotient, remainder);
      var isOne: bool;
      isOne, remainder := ShiftRemainder(remainder, next, div);
      if isOne {
        if bit < 64 {
          assert quotient / Pow2(bit) % 2 == 0; // The bit is clear, so | adds it.
          quotient := quotient + Pow2(bit);
        }
        q := 2 * q + 1;
      } else {
        q := 2 * q;
      }
    }
    DivisionEnds(n, div, q, quotient, remainder);
  }

  // ---------------------------------------------------------------- Times of day

  datatype TimeOfDay = TimeOfDay(seconds: nat, nanoseconds: nat)

  function ToNs(tod: TimeOfDay): nat {
    tod.seconds * NS_PER_SEC + tod.nanoseconds
  }

  function FromNs(ns: nat): TimeOfDay {
    TimeOfDay(ns / NS_PER_SEC % W32, ns % NS_PER_SEC)
  }

  /** The nanoseconds a time of day of two 32-bit fields can stand for. */
  predicate IsTodNs(ns: nat) {
    ns < W32 * NS_PER_SEC + W32
  }

  /** A time of day survives the conversions when its nanoseconds are less than a second. */
  lemma TimeOfDayRoundTrip(tod: TimeOfDay)
    requires tod.seconds < W32 && tod.nanoseconds < W32
    ensures IsTodNs(ToNs(tod))
    ensures FromNs(ToNs(tod)) == tod <==> tod.nanoseconds < NS_PER_SEC
  {
    if tod.nanoseconds < NS_PER_SEC {
      DivUnique(ToNs(tod), NS_PER_SEC, tod.seconds);
    }
  }

  // ---------------------------------------------------------------- The grid

  /** A period of a grid of numerator / denominator periods a second, times numerator. */
  function PeriodNs(denominator: nat): nat {
    denominator * NS_PER_SEC
  }

  /** The time of grid point n, rounded to a nanosecond. */
  function GridTime(n: nat, numerator: nat, denominator: nat): nat
    requires numerator > 0
  {
    MulAddDiv(n, PeriodNs(denominator), numerator / 2, numerator)
  }

  /** The grid point nearest to ns. */
  function GridPoint(ns: nat, numerator: nat, denominator: nat): nat
    requires denominator > 0
  {
    MulAddDiv(ns, numerator, PeriodNs(denominator) / 2, PeriodNs(denominator))
  }

  function ToGrid(ns: nat, numerator: int, denominator: int): nat {
    if numerator <= 0 || denominator <= 0 then ns
    else GridTime(GridPoint(ns, numerator, denominator), numerator, denominator)
  }

  // The rounded quotients a grid is made of, before they are cut to 64 bits.
  function NearestPoint(ns: nat, numerator: int, period: int): nat
    requires numerator > 0 && period > 0
  {
    (ns * numerator + period / 2) / period
  }

  function NearestTime(n: nat, numerator: int, period: int): nat
    requires numerator > 0 && period > 0
  {
    (n * period + numerator / 2) / numerator
  }

  lemma GridWithoutWrap(ns: nat, n: nat, numerator: int, denominator: int)
    requires numerator > 0 && denominator > 0
    ensures var period := PeriodNs(denominator);
      && period > 0 && period % 2 == 0
      && GridPoint(ns, numerator, denominator) == NearestPoint(ns, numerator, period) % W64
      && GridTime(n, numerator, denominator) == NearestTime(n, numerator, period) % W64
  {
  }

  // The times a grid rounds to: n periods and at most half a nanosecond.
  lemma GridTimeBounds(n: nat, numerator: int, period: int)
    requires numerator > 0 && period > 0
    ensures var g := NearestTime(n, numerator, period);
      -numerator < 2 * (g * numerator - n * period) <= numerator
  {
    DivBounds(n * period + numerator / 2, numerator);
  }

  // The point a time rounds to: at most half a period away.
  lemma GridPointBounds(ns: nat, numerator: int, period: int)
    requires numerator > 0 && period > 0 && period % 2 == 0
    ensures var n := NearestPoint(ns, numerator, period);
      -period <= 2 * (ns * numerator - n * period) < period
  {
    DivBounds(ns * numerator + period / 2, period);
  }

  lemma TwoNLessOne(n: nat, period: nat)
    ensures (2 * n - 1) * period == 2 * (n * period) - period
  {
  }

  lemma PointFits(n: nat, ns: nat, numerator: nat, period: nat)
    requires IsTodNs(ns) && 0 < numerator <= INT_MAX && NS_PER_SEC <= period
    requires 2 * (n * period) <= 2 * (ns * numerator) + period
    ensures n < W64
  {
    if n >= W64 {
      MulMonotone(ns, W32 * NS_PER_SEC + W32, numerator);
      MulMonotone(numerator, INT_MAX, W32 * NS_PER_SEC + W32);
      TwoNLessOne(n, period);
      MulMonotone(NS_PER_SEC, period, 2 * n - 1);
      assert false;
    }
  }

  lemma TimeFits(g: nat, ns: nat, numerator: nat, period: nat)
    requires IsTodNs(ns) && 0 < numerator && period <= INT_MAX * NS_PER_SEC
    requires 2 * (g * numerator) <= 2 * (ns * numerator) + period + numerator
    ensures g < W64
  {
    if g >= W64 {
      var d := 2 * (g - ns);
      MulMonotone(period + 2, d, numerator);
      MulMonotone(1, numerator, period + 2);
      assert d * numerator == 2 * (g * numerator) - 2 * (ns * numerator);
      assert (period + 2) * numerator == (period + 1) * numerator + numerator;
      MulMonotone(1, numerator, period + 1);
      assert false;
    }
  }

  // No value of a grid's arithmetic leaves 64 bits for a time of day.
  lemma GridFits(ns: nat, numerator: int, denominator: int)
    requires IsTodNs(ns)
    requires 0 < numerator <= INT_MAX && 0 < denominator <= INT_MAX
    ensures var period := PeriodNs(denominator);
      var n := NearestPoint(ns, numerator, period);
      && GridPoint(ns, numerator, denominator) == n
      && GridTime(n, numerator, denominator) == NearestTime(n, numerator, period)
  {
    hide NearestPoint, NearestTime, GridPoint, GridTime;
    var period := PeriodNs(denominator);
    var n := NearestPoint(ns, numerator, period);
    GridWithoutWrap(ns, n, numerator, denominator);
    GridPointBounds(ns, numerator, period);
    GridTimeBounds(n, numerator, period);
    PointFits(n, ns, numerator, period);
    TimeFits(NearestTime(n, numerator, period), ns, numerator, period);
  }

  /** A grid time lies within half a period and half a nanosecond of the time it is for. */
  lemma ToGridIsNear(ns: nat, numerator: int, denominator: int)
    requires IsTodNs(ns)
    requires 0 < numerator <= INT_MAX && 0 < denominator <= INT_MAX
    ensures var g := ToGrid(ns, numerator, denominator);
      -(PeriodNs(denominator) + numerator) <= 2 * (g * numerator - ns * numerator)
      <= PeriodNs(denominator) + numerator
  {
    hide NearestPoint, NearestTime, GridPoint, GridTime;
    var period := PeriodNs(denominator);
    GridFits(ns, numerator, denominator);
    GridWithoutWrap(ns, 0, numerator, denominator);
    GridPointBounds(ns, numerator, period);
    GridTimeBounds(NearestPoint(ns, numerator, period), numerator, period);
  }

  /** The time of grid point n, to the nanosecond; of two as near, the later. */
  predicate IsTimeOfPoint(g: nat, n: nat, numerator: int, denominator: int) {
    -numerator < 2 * (g * numerator - n * denominator * 1_000_000_000) <= numerator
  }

  /** n is the grid point nearest to a time; of two as near, the later. */
  predicate IsPointNear(n: nat, ns: nat, numerator: int, denominator: int) {
    var period := denominator * 1_000_000_000;
    -period <= 2 * (ns * numerator - n * period) < period
  }

  /** A time is taken to the time of the grid point nearest to it. */
  lemma ToGridIsOnGrid(ns: nat, numerator: int, denominator: int)
    requires IsTodNs(ns)
    requires 0 < numerator <= INT_MAX && 0 < denominator <= INT_MAX
    ensures exists n: nat :: IsPointNear(n, ns, numerator, denominator)
              && IsTimeOfPoint(ToGrid(ns, numerator, denominator), n, numerator, denominator)
  {
    hide NearestPoint, NearestTime, GridPoint, GridTime;
    var period := PeriodNs(denominator);
    GridFits(ns, numerator, denominator);
    GridWithoutWrap(ns, 0, numerator, denominator);
    var n := NearestPoint(ns, numerator, period);
    GridPointBounds(ns, numerator, period);
    GridTimeBounds(n, numerator, period);
    assert n * denominator * 1_000_000_000 == n * period;
    assert IsPointNear(n, ns, numerator, denominator);
  }

  // A grid whose periods are a nanosecond or more: its times lie nearest their own point.
  lemma CoarsePoint(n: nat, numerator: int, period: int)
    requires 0 < numerator <= period && period % 2 == 0
    ensures NearestPoint(NearestTime(n, numerator, period), numerator, period) == n
  {
    GridTimeBounds(n, numerator, period);
    var g := NearestTime(n, numerator, period);
    if numerator == period {
      DivUnique(n * period + period / 2, period, n);
    }
    DivUnique(g * numerator + period / 2, period, n);
  }

  // A grid of shorter periods: every nanosecond is a grid time.
  lemma FineTime(ns: nat, numerator: int, period: int)
    requires 0 < period < numerator && period % 2 == 0
    ensures NearestTime(NearestPoint(ns, numerator, period), numerator, period) == ns
  {
    GridPointBounds(ns, numerator, period);
    var n := NearestPoint(ns, numerator, period);
    DivUnique(n * period + numerator / 2, numerator, ns);
  }

  /** A time on the grid stays where it is, for every time of day and every grid. */
  lemma ToGridIsIdempotent(ns: nat, numerator: int, denominator: int)
    requires IsTodNs(ns) && numerator <= INT_MAX && denominator <= INT_MAX
    ensures var g := ToGrid(ns, numerator, denominator);
      ToGrid(g, numerator, denominator) == g
  {
    if numerator > 0 && denominator > 0 {
      hide NearestPoint, NearestTime, GridPoint, GridTime;
      var period := PeriodNs(denominator);
      GridFits(ns, numerator, denominator);
      var n := NearestPoint(ns, numerator, period);
      var g := NearestTime(n, numerator, period);
      GridWithoutWrap(g, n, numerator, denominator);
      if numerator <= period {
        CoarsePoint(n, numerator, period);
      } else {
        FineTime(ns, numerator, period);
      }
    }
  }

  // ---------------------------------------------------------------- RTP timestamps

  /** The part of a tick that is added before truncating: an eighth for video, else a half. */
  function Rounding(rate: int): nat {
    if rate == VIDEO_RTP_RATE then NS_PER_SEC / 8 else NS_PER_SEC / 2
  }

  function Tod2Rtp(rate: int, ns: nat): nat {
    if rate <= 0 then 0 else MulAddDiv(ns, rate, Rounding(rate), NS_PER_SEC) % W32
  }

  /** The wraps taken when a timestamp differs by diff from that of a time of wraps. */
  function ChosenWraps(wraps: nat, diff: int): nat {
    if diff <= -(W32 / 2) then wraps + 1
    else if diff >= W32 / 2 && wraps > 0 then wraps - 1 else wraps
  }

  /** The full count of ticks taken for a timestamp near approx. */
  function ChosenTicks(rate: int, rtp: nat, approx: nat): nat
    requires rate > 0
  {
    var wraps := MulAddDiv(approx, rate, 0, W32 * NS_PER_SEC);
    (ChosenWraps(wraps, rtp - Tod2Rtp(rate, approx)) * W32 + rtp) % W64
  }

  function Rtp2Tod(rate: int, rtp: nat, approx: nat): nat {
    if rate <= 0 then approx
    else MulAddDiv(ChosenTicks(rate, rtp, approx), NS_PER_SEC, 0, rate)
  }

  /** A count of ticks is below a time by so many eighths of a tick at most, and above it by less. */
  predicate IsCount(k: nat, rate: int, ns: nat, belowEighths: int, aboveEighths: int) {
    -aboveEighths * NS_PER_SEC <= 8 * (ns * rate - k * NS_PER_SEC) < belowEighths * NS_PER_SEC
  }

  /**
   * A timestamp is the count of ticks nearest to its time, modulo 2^32; of two as near, the
   * later. At the video rate it is the last count that has been reached, or the next one when
   * that is reached in an eighth of a tick or less.
   */
  lemma TimestampIsNearest(rate: int, ns: nat)
    requires rate > 0
    ensures exists k: nat :: Tod2Rtp(rate, ns) == k % W32
              && IsCount(k, rate, ns, if rate == 90_000 then 7 else 4,
                         if rate == 90_000 then 1 else 4)
  {
    var x, r := ns * rate, if rate == 90_000 then 125_000_000 else 500_000_000;
    var k := (x + r) / NS_PER_SEC;
    DivBounds(x + r, NS_PER_SEC);
    WrapsOfWraps(k);
    assert Tod2Rtp(rate, ns) == k % W32;
    assert IsCount(k, rate, ns, if rate == 90_000 then 7 else 4, if rate == 90_000 then 1 else 4);
  }

  lemma WrapsOfWraps(k: nat)
    ensures k % W64 % W32 == k % W32
  {
  }

  // ------------------------------------------------- Timestamps at fractional rates

  /**
   * When a tick is at most a quarter of a tick off the frame times, which is when the
   * numerator divides 360000 times the denominator, every grid point has its exact
   * timestamp, however its time was rounded.
   */
  lemma GridTimestampIsExact(n: nat, numerator: int, denominator: int)
    requires 0 < numerator && 0 < denominator
    requires 360_000 * denominator % numerator == 0
    requires NearestTime(n, numerator, PeriodNs(denominator)) < W64
    ensures Tod2Rtp(VIDEO_RTP_RATE, GridTime(n, numerator, denominator))
         == VIDEO_RTP_RATE * n * denominator / numerator % W32
  {
    hide NearestPoint, NearestTime, GridPoint, GridTime, Tod2Rtp;
    var period := PeriodNs(denominator);
    var g := NearestTime(n, numerator, period);
    var m := 360_000 * denominator / numerator;
    ExactDivision(360_000 * denominator, numerator);
    GridWithoutWrap(0, n, numerator, denominator);
    GridTimeBounds(n, numerator, period);
    ScaledTime(g, n, m, numerator, denominator);
    QuarterTicks(g, n * m);
    TicksOfPoint(n, m, numerator, denominator);
    VideoTimestamp(g);
  }

  lemma ExactDivision(x: int, d: int)
    requires d > 0 && x % d == 0
    ensures x / d * d == x
  {
  }

  lemma VideoTimestamp(g: nat)
    requires g < W64
    ensures Tod2Rtp(VIDEO_RTP_RATE, g)
         == (g * VIDEO_RTP_RATE + NS_PER_SEC / 8) / NS_PER_SEC % W32
  {
  }

  // The rounding of a grid time, in quarters of a tick.
  lemma ScaledTime(g: nat, n: nat, m: nat, numerator: int, denominator: int)
    requires numerator > 0 && m * numerator == 360_000 * denominator
    requires -numerator < 2 * (g * numerator - n * (denominator * NS_PER_SEC)) <= numerator
    ensures -180_000 <= 360_000 * g - n * m * NS_PER_SEC <= 180_000
  {
    var d := 360_000 * g - n * m * NS_PER_SEC;
    assert d * numerator == 360_000 * (g * numerator - n * (denominator * NS_PER_SEC)) by {
      assert n * m * NS_PER_SEC * numerator == n * NS_PER_SEC * (m * numerator);
      assert n * NS_PER_SEC * (360_000 * denominator)
          == 360_000 * (n * (denominator * NS_PER_SEC));
    }
    if d > 180_000 {
      MulMonotone(180_001, d, numerator);
      assert false;
    }
    if d < -180_000 {
      MulMonotone(d, -180_001, numerator);
      assert false;
    }
  }

  lemma QuarterTicks(g: nat, quarters: nat)
    requires -180_000 <= 360_000 * g - quarters * NS_PER_SEC <= 180_000
    ensures (g * VIDEO_RTP_RATE + NS_PER_SEC / 8) / NS_PER_SEC == quarters / 4
  {
    DivUnique(g * VIDEO_RTP_RATE + NS_PER_SEC / 8, NS_PER_SEC, quarters / 4);
  }

  lemma TicksOfPoint(n: nat, m: nat, numerator: nat, denominator: nat)
    requires numerator > 0 && m * numerator == 360_000 * denominator
    ensures VIDEO_RTP_RATE * n * denominator / numerator == n * m / 4
  {
    var t := n * m / 4;
    var x := VIDEO_RTP_RATE * n * denominator;
    assert 4 * x == n * m * numerator by {
      assert 4 * x == n * (360_000 * denominator);
    }
    MulMonotone(4 * t, n * m, numerator);
    MulMonotone(n * m + 1, 4 * t + 4, numerator);
    assert (n * m + 1) * numerator == n * m * numerator + numerator;
    DivUnique(x, numerator, t);
  }

  // ------------------------------------------------- From a timestamp to a time and back

  // The largest rate the round trip holds for: a nanosecond is then half a tick at most.
  const MAX_RATE: nat := 500_000_000

  // The ticks at a time, truncated as the wraps are counted, and rounded as a timestamp is.
  function Truncated(rate: int, ns: nat): nat
    requires rate > 0
  {
    ns * rate / NS_PER_SEC
  }

  function Rounded(rate: int, ns: nat): nat
    requires rate > 0
  {
    (ns * rate + Rounding(rate)) / NS_PER_SEC
  }

  // The wraps counted, for a time of day.
  lemma WrapsExact(rate: int, approx: nat)
    requires 0 < rate <= INT_MAX && IsTodNs(approx)
    ensures var wraps := Truncated(rate, approx) / W32;
      && MulAddDiv(approx, rate, 0, W32 * NS_PER_SEC) == wraps
      && wraps + 2 < W32 && wraps * W32 * NS_PER_SEC <= approx * rate
  {
    DivDiv(approx * rate, NS_PER_SEC, W32);
    DivBounds(approx * rate, W32 * NS_PER_SEC);
    MulMonotone(approx, W32 * NS_PER_SEC + W32, rate);
    MulMonotone(rate, INT_MAX, W32 * NS_PER_SEC + W32);
    DivMonotone(approx * rate, (W32 * NS_PER_SEC + W32) * INT_MAX, W32 * NS_PER_SEC);
  }

  // The time of the ticks taken fits 64 bits too: it is at most two wraps from approx.
  lemma ChosenTimeFits(rate: int, approx: nat, ticks: nat)
    requires 0 < rate && IsTodNs(approx)
    requires ticks * NS_PER_SEC <= approx * rate + 2 * W32 * NS_PER_SEC
    ensures TimeOfTicks(rate, ticks) < W64
  {
    var ns := TimeOfTicks(rate, ticks);
    DivBounds(ticks * NS_PER_SEC, rate);
    if ns >= W64 {
      MulMonotone(W64 - approx, ns - approx, rate);
      MulMonotone(1, rate, W64 - approx);
      DifferenceTimes(ns, approx, rate);
      assert false;
    }
  }

  lemma DifferenceTimes(a: int, b: int, c: int)
    ensures (a - b) * c == a * c - b * c
  {
  }

  /** The time of a count of ticks, truncated to a nanosecond. */
  function TimeOfTicks(rate: int, ticks: nat): nat
    requires rate > 0
  {
    ticks * NS_PER_SEC / rate
  }

  lemma ChosenTicksFit(wraps: nat, diff: int, rtp: nat, amount: nat)
    requires wraps + 2 < W32 && rtp < W32 && wraps * W32 * NS_PER_SEC <= amount
    ensures var ticks := ChosenWraps(wraps, diff) * W32 + rtp;
      ticks < W64 && ticks % W32 == rtp && ticks * NS_PER_SEC <= amount + 2 * W32 * NS_PER_SEC
  {
  }

  /** The ticks taken, and their time, without the cuts to 64 bits. */
  lemma ChosenTicksExact(rate: int, rtp: nat, approx: nat)
    requires 0 < rate <= INT_MAX && rtp < W32 && IsTodNs(approx)
    ensures var ticks := ChosenTicks(rate, rtp, approx);
      var wraps := Truncated(rate, approx) / W32;
      && ticks == ChosenWraps(wraps, rtp - Tod2Rtp(rate, approx)) * W32 + rtp < W64
      && ticks % W32 == rtp
      && Rtp2Tod(rate, rtp, approx) == TimeOfTicks(rate, ticks) < W64
  {
    hide Tod2Rtp, Truncated, ChosenWraps, MulAddDiv, TimeOfTicks;
    WrapsExact(rate, approx);
    var wraps := Truncated(rate, approx) / W32;
    var diff := rtp - Tod2Rtp(rate, approx);
    ChosenTicksFit(wraps, diff, rtp, approx * rate);
    var ticks := ChosenWraps(wraps, diff) * W32 + rtp;
    ChosenTimeFits(rate, approx, ticks);
    TimeWithoutWrap(rate, ticks);
  }

  lemma TimeWithoutWrap(rate: int, ticks: nat)
    requires rate > 0
    ensures MulAddDiv(ticks, NS_PER_SEC, 0, rate) == TimeOfTicks(rate, ticks) % W64
  {
  }

  // Ticks to nanoseconds and back: exact when the rounding covers what is cut off.
  lemma TicksRoundTrip(rate: int, ticks: nat)
    requires rate > 0
    ensures Rounded(rate, TimeOfTicks(rate, ticks)) == ticks
         <==> ticks * NS_PER_SEC % rate <= Rounding(rate)
  {
    var x := ticks * NS_PER_SEC;
    var ns := x / rate;
    assert ns * rate == x - x % rate;
    if x % rate <= Rounding(rate) {
      DivUnique(ns * rate + Rounding(rate), NS_PER_SEC, ticks);
    } else {
      DivBounds(ns * rate + Rounding(rate), NS_PER_SEC);
    }
  }

  lemma TimestampOfTime(rate: int, ns: nat)
    requires rate > 0
    ensures Tod2Rtp(rate, ns) == Rounded(rate, ns) % W64 % W32
  {
  }

  lemma RoundingCovers(rate: int, x: nat)
    requires 0 < rate <= MAX_RATE
    ensures x % rate <= Rounding(rate)
  {
  }

  /**
   * A timestamp turned into a time and back is the timestamp, whatever time it was taken
   * near, for every rate up to 500 MHz.
   */
  lemma RtpRoundTrip(rate: int, rtp: nat, approx: nat)
    requires 0 < rate <= MAX_RATE && rtp < W32 && IsTodNs(approx)
    ensures Tod2Rtp(rate, Rtp2Tod(rate, rtp, approx)) == rtp
  {
    hide Tod2Rtp, Rtp2Tod, ChosenTicks, ChosenWraps, TimeOfTicks, Rounded, Rounding, Truncated;
    var ticks := ChosenTicks(rate, rtp, approx);
    ChosenTicksExact(rate, rtp, approx);
    RoundingCovers(rate, ticks * NS_PER_SEC);
    TicksRoundTrip(rate, ticks);
    TimestampOfTime(rate, TimeOfTicks(rate, ticks));
  }

  /**
   * Any rate at all: a timestamp turned into a time near another and back is the timestamp if
   * and only if making the time cuts off no more of a tick than the way back rounds up.
   */
  lemma RtpRoundTripAtAnyRate(rate: int, rtp: nat, approx: nat)
    requires 0 < rate <= INT_MAX && rtp < W32 && IsTodNs(approx)
    ensures Tod2Rtp(rate, Rtp2Tod(rate, rtp, approx)) == rtp
       <==> ChosenTicks(rate, rtp, approx) * NS_PER_SEC % rate <= Rounding(rate)
  {
    hide Rounding, Rounded, TimeOfTicks, MulAddDiv, Tod2Rtp, Rtp2Tod, ChosenTicks, Truncated;
    hide ChosenWraps;
    var ticks := ChosenTicks(rate, rtp, approx);
    ChosenTicksExact(rate, rtp, approx);
    var ns := TimeOfTicks(rate, ticks);
    TicksRoundTrip(rate, ticks);
    TimestampOfTime(rate, ns);
    BackIsNear(rate, ticks);
    NearTicks(ticks, Rounded(rate, ns));
  }

  /** At two ticks a nanosecond timestamp 1 becomes a time whose timestamp is 0. */
  lemma RtpIsLostAtTwoGigahertz()
    ensures Rtp2Tod(2_000_000_000, 1, 0) == 0 && Tod2Rtp(2_000_000_000, 0) == 0
  {
  }

  lemma BackIsNear(rate: int, ticks: nat)
    requires 0 < rate <= INT_MAX
    ensures ticks - 3 <= Rounded(rate, TimeOfTicks(rate, ticks)) <= ticks
  {
    var ns := ticks * NS_PER_SEC / rate;
    DivBounds(ticks * NS_PER_SEC, rate);
    DivBounds(ns * rate + Rounding(rate), NS_PER_SEC);
  }

  lemma NearTicks(ticks: nat, back: nat)
    requires ticks - 3 <= back <= ticks < W64
    ensures back % W64 % W32 == ticks % W32 <==> back == ticks
  {
  }

  // ------------------------------------------------- The time taken is the nearest

  function Distance(a: int, b: int): nat {
    if a < b then b - a else a - b
  }

  /** Ticks are the nearest with timestamp rtp: no other count with it lies nearer. */
  ghost predicate IsNearest(ticks: nat, rtp: nat, rounded: nat) {
    && ticks % W32 == rtp
    && forall k: nat :: Distance(ticks, rounded) <= Distance(k * W32 + rtp, rounded)
  }

  lemma TimestampIsRounded(rate: int, approx: nat)
    requires 0 < rate <= MAX_RATE && IsTodNs(approx)
    ensures Tod2Rtp(rate, approx) == Rounded(rate, approx) % W32
    ensures Truncated(rate, approx) <= Rounded(rate, approx) <= Truncated(rate, approx) + 1
  {
    MulMonotone(approx, W32 * NS_PER_SEC + W32, rate);
    MulMonotone(rate, MAX_RATE, W32 * NS_PER_SEC + W32);
    DivBounds(approx * rate, NS_PER_SEC);
    DivBounds(approx * rate + Rounding(rate), NS_PER_SEC);
  }

  // Choosing among the wraps on counts: t truncated, r rounded, both of the same time.
  lemma NearestCount(t: nat, r: nat, rtp: nat, ticks: nat)
    requires t <= r <= t + 1 && rtp < W32
    requires ticks == ChosenWraps(t / W32, rtp - r % W32) * W32 + rtp
    ensures IsNearest(ticks, rtp, r)
         <==> t / W32 == r / W32 || (t < W32 && rtp >= W32 / 2)
  {
    hide IsNearest;
    if t / W32 == r / W32 || (t < W32 && rtp >= W32 / 2) {
      CountIsNearest(t, r, rtp, ticks);
    } else {
      CountIsNotNearest(t, r, rtp, ticks);
    }
  }

  lemma CountIsNearest(t: nat, r: nat, rtp: nat, ticks: nat)
    requires t <= r <= t + 1 && rtp < W32
    requires ticks == ChosenWraps(t / W32, rtp - r % W32) * W32 + rtp
    requires t / W32 == r / W32 || (t < W32 && rtp >= W32 / 2)
    ensures IsNearest(ticks, rtp, r)
  {
    assert Distance(ticks, r) <= W32 / 2 || ticks == rtp > r;
    forall k: nat
      ensures Distance(ticks, r) <= Distance(k * W32 + rtp, r)
    {
    }
  }

  lemma CountIsNotNearest(t: nat, r: nat, rtp: nat, ticks: nat)
    requires t <= r <= t + 1 && rtp < W32
    requires ticks == ChosenWraps(t / W32, rtp - r % W32) * W32 + rtp
    requires t / W32 != r / W32 && !(t < W32 && rtp >= W32 / 2)
    ensures !IsNearest(ticks, rtp, r)
  {
    var other: nat := if rtp < W32 / 2 then t / W32 + 1 else t / W32;
    assert Distance(ticks, r) > Distance(other * W32 + rtp, r);
  }

  /**
   * The time chosen for a timestamp is the nearest to approx, in ticks, exactly when the
   * truncated and the rounded count of ticks at approx lie in the same wrap, or approx is
   * at the end of the first wrap and the timestamp in the upper half of it.
   */
  lemma ChosenTimeIsNearest(rate: int, rtp: nat, approx: nat)
    requires 0 < rate <= MAX_RATE && rtp < W32 && IsTodNs(approx)
    ensures IsNearest(ChosenTicks(rate, rtp, approx), rtp, Rounded(rate, approx))
         <==> || Truncated(rate, approx) / W32 == Rounded(rate, approx) / W32
              || (Truncated(rate, approx) < W32 && rtp >= W32 / 2)
  {
    hide ChosenTicks, ChosenWraps, Tod2Rtp, IsNearest, Rtp2Tod, Truncated, Rounded;
    ChosenTicksExact(rate, rtp, approx);
    TimestampIsRounded(rate, approx);
    NearestCount(Truncated(rate, approx), Rounded(rate, approx), rtp,
                 ChosenTicks(rate, rtp, approx));
  }

  /** It is not always: an eighth of a tick before the end of the first wrap, it is 13 hours off. */
  lemma NotNearestAtTheEdge()
    ensures var approx := 47_721_858_844_444;
      && Tod2Rtp(VIDEO_RTP_RATE, approx) == 0
      && Rtp2Tod(VIDEO_RTP_RATE, 0, approx) == 0
      && !IsNearest(ChosenTicks(VIDEO_RTP_RATE, 0, approx), 0, Rounded(VIDEO_RTP_RATE, approx))
  {
    var approx := 47_721_858_844_444;
    assert Truncated(VIDEO_RTP_RATE, approx) == W32 - 1;
    assert Rounded(VIDEO_RTP_RATE, approx) == W32;
    ChosenTimeIsNearest(VIDEO_RTP_RATE, 0, approx);
  }

  /** Where it is the nearest and not before the first wrap, it is within half a wrap. */
  lemma ChosenTimeIsWithinHalfAWrap(rate: int, rtp: nat, approx: nat)
    requires 0 < rate <= MAX_RATE && rtp < W32 && IsTodNs(approx)
    requires W32 <= Truncated(rate, approx)
    requires Truncated(rate, approx) / W32 == Rounded(rate, approx) / W32
    ensures var ns := Rtp2Tod(rate, rtp, approx);
      -((W32 / 2 + 1) * NS_PER_SEC + rate) <= ns * rate - approx * rate
      <= (W32 / 2 + 1) * NS_PER_SEC
  {
    hide ChosenTicks, ChosenWraps, Tod2Rtp, Rtp2Tod;
    ChosenTicksExact(rate, rtp, approx);
    TimestampIsRounded(rate, approx);
    var r, t := Rounded(rate, approx), Truncated(rate, approx);
    var ticks := ChosenTicks(rate, rtp, approx);
    assert -(W32 / 2) <= ticks - r <= W32 / 2 by { HalfAWrap(t, r, rtp, ticks); }
    DivBounds(ticks * NS_PER_SEC, rate);
    DivBounds(approx * rate, NS_PER_SEC);
    DivBounds(approx * rate + Rounding(rate), NS_PER_SEC);
  }

  lemma HalfAWrap(t: nat, r: nat, rtp: nat, ticks: nat)
    requires t <= r <= t + 1 && rtp < W32 && W32 <= t && t / W32 == r / W32
    requires ticks == ChosenWraps(t / W32, rtp - r % W32) * W32 + rtp
    ensures -(W32 / 2) <= ticks - r <= W32 / 2
  {
  }
}
