/**
 Bollinger bands over a circular window: running sums, an integer variance, and a Newton
 integer square root on u64.
 */
module VolatilityBands {
  import opened Machine
  import opened RollingWindow

  const I128_MAX: int := 0x7FFF_FFFF_FFFF_FFFF_FFFF_FFFF_FFFF_FFFF

  /** The largest multiplier whose product with any deviation fits an i64. */
  const MAX_MULTIPLIER: nat := 0x8000_0000

  // ---------------------------------------------------------------- the square root

  ghost predicate IsFloorSqrt(r: nat, n: nat) {
    r * r <= n < (r + 1) * (r + 1)
  }

  lemma FloorSqrtUnique(r: nat, s: nat, n: nat)
    requires IsFloorSqrt(r, n) && IsFloorSqrt(s, n)
    ensures r == s
  {
    if r < s {
      MulMonotone(r + 1, s, s);
      MulMonotone(r + 1, s, r + 1);
    } else if s < r {
      MulMonotone(s + 1, r, r);
      MulMonotone(s + 1, r, s + 1);
    }
  }

  /** One Newton step on integers. */
  function Newton(n: nat, x: nat): nat
    requires x > 0
  {
    (x + n / x) / 2
  }

  predicate AtLeastRoot(n: nat, x: nat) {
    n < (x + 1) * (x + 1)
  }

  /** A Newton step never falls below the root. */
  lemma NewtonStaysAbove(n: nat, x: nat)
    requires x > 0
    ensures AtLeastRoot(n, Newton(n, x))
  {
    var q := n / x;
    var y := (x + q) / 2;
    DivBounds(n, x);
    assert n < q * x + x;
    SquareOfSum(x, q + 1, 2 * (y + 1));
    assert q * x + x == x * (q + 1);
    assert (2 * (y + 1)) * (2 * (y + 1)) == 4 * ((y + 1) * (y + 1));
  }

  lemma SquareExpand(a: int, b: int)
    ensures (a + b) * (a + b) == 4 * (a * b) + (a - b) * (a - b)
  {
  }

  lemma SquareMonotone(a: nat, b: nat)
    requires a <= b
    ensures a * a <= b * b
  {
    MulMonotone(a, b, a);
    MulMonotone(a, b, b);
  }

  lemma SquareNonNegative(d: int)
    ensures d * d >= 0
  {
  }

  /** The arithmetic-geometric inequality on naturals. */
  lemma SquareOfSum(a: nat, b: nat, c: nat)
    requires a + b <= c
    ensures 4 * (a * b) <= c * c
  {
    SquareExpand(a, b);
    SquareNonNegative(a - b);
    SquareMonotone(a + b, c);
  }

  /** When the iteration stops decreasing, the estimate is at most the root. */
  lemma NewtonStops(n: nat, x: nat)
    requires x > 0 && Newton(n, x) >= x
    ensures x * x <= n
  {
    DivBounds(n, x);
    MulMonotone(x, n / x, x);
  }

  /**
   `isqrt` on u64. It terminates with the floor of the square root for every input except
   the largest word, whose first step wraps to 0 and divides by it: None is that panic.
   */
  method Isqrt(n: nat) returns (r: Option<nat>)
    requires n < U64
    ensures r.None? <==> n == U64 - 1
    ensures r.Some? ==> IsFloorSqrt(r.value, n)
  {
    if n == 0 {
      return Some(0);
    }
    var x := n;
    var y := ((x + 1) % U64) / 2;
    if y == 0 {
      return None;
    }
    FirstStep(n);
    NewtonStaysAbove(n, n);
    while y < x
      invariant 0 < x && 0 < y && y == Newton(n, x) && AtLeastRoot(n, x) && AtLeastRoot(n, y)
      decreases x
    {
      x := y;
      NewtonStaysAbove(n, x);
      NewtonPositive(n, x);
      y := (x + n / x) / 2;
    }
    NewtonStops(n, x);
    r := Some(x);
  }

  /** Short of the largest word the starting value is a Newton step from `n` itself. */
  lemma FirstStep(n: nat)
    requires 0 < n < U64 - 1
    ensures ((n + 1) % U64) / 2 == Newton(n, n) && AtLeastRoot(n, n)
  {
    DivUnique(n, n, 1, 0);
    DivUnique(n + 1, U64, 0, n + 1);
    MulMonotone(1, n + 1, n + 1);
  }

  lemma NewtonPositive(n: nat, x: nat)
    requires 0 < x && 0 < n && AtLeastRoot(n, x)
    ensures Newton(n, x) > 0
  {
    if x == 1 {
      DivUnique(n, 1, n, 0);
    }
  }

  // ---------------------------------------------------------------- the variance

  /** Squared differences between `x` and every price of `t`. */
  function SpreadFrom(x: int, t: seq<int>): nat {
    if t == [] then 0
    else
      SquareNonNegative(x - t[|t| - 1]);
      SpreadFrom(x, t[..|t| - 1]) + Square(x - t[|t| - 1])
  }

  /** Squared differences over all pairs of prices: n^2 times the variance. */
  function PairSpread(w: seq<int>): nat {
    if w == [] then 0 else PairSpread(w[..|w| - 1]) + SpreadFrom(w[|w| - 1], w[..|w| - 1])
  }

  lemma SquareOfDifference(x: int, y: int)
    ensures Square(x - y) == Square(x) - 2 * (x * y) + Square(y)
  {
  }

  lemma AddProduct(x: int, s: int, y: int)
    ensures x * (s + y) == x * s + x * y
  {
  }

  lemma OneMore(n: int, c: int)
    ensures (n - 1) * c + c == n * c
  {
  }

  lemma {:induction false} SpreadFromSums(x: int, t: seq<int>)
    ensures SpreadFrom(x, t) == |t| * Square(x) - 2 * (x * SumOf(t)) + SumOf(Squares(t))
  {
    if t != [] {
      var rest, y := t[..|t| - 1], t[|t| - 1];
      SpreadFromSums(x, rest);
      SquareOfDifference(x, y);
      OneMore(|t|, Square(x));
      AddProduct(x, SumOf(rest), y);
      assert Squares(t)[..|rest|] == Squares(rest);
    }
  }

  lemma Expanded(n: nat, s: int, q: int, x: int)
    ensures (n + 1) * (q + Square(x)) - Square(s + x) == (n * q - Square(s)) + (q + n * Square(x) - 2 * (x * s))
  {
    var b := Square(x);
    assert (n + 1) * (q + b) == n * q + n * b + q + b;
    assert Square(s + x) == Square(s) + 2 * (x * s) + b;
  }

  /** Lagrange's identity: the two sums of a window determine its pairwise spread. */
  lemma {:induction false} SumsGiveSpread(w: seq<int>)
    ensures |w| * SumOf(Squares(w)) - Square(SumOf(w)) == PairSpread(w)
  {
    if w != [] {
      var t, x := w[..|w| - 1], w[|w| - 1];
      SumsGiveSpread(t);
      SpreadFromSums(x, t);
      assert Squares(w)[..|t|] == Squares(t);
      Expanded(|t|, SumOf(t), SumOf(Squares(t)), x);
    }
  }

  // ---------------------------------------------------------------- the bands

  ghost function FloorSqrt(n: nat): (r: nat)
    ensures IsFloorSqrt(r, n)
  {
    if n == 0 then 0
    else
      var s := FloorSqrt(n - 1);
      if (s + 1) * (s + 1) <= n then s + 1 else s
  }

  /** `E[X^2] - E[X]^2` on the running sums, with both divisions truncating. */
  function Variance(sum: int, sumSq: int, count: nat): int
    requires count > 0
  {
    TruncDiv(sumSq - Square(sum) / count, count)
  }

  /** The deviation as computed: the i128 variance is cast to u64 first; None is a panic. */
  ghost function StdDev(variance: int): Option<nat> {
    if variance <= 0 then Some(0)
    else if variance % U64 == U64 - 1 then None
    else Some(FloorSqrt(variance % U64))
  }

  /** What is added to and subtracted from the middle band. */
  function BandOffset(dev: nat, stdMult: int): int {
    TruncDiv(WrapI64(dev * stdMult), SCALE)
  }

  datatype Bands = Bands(upper: int, middle: int, lower: int)

  ghost function BandsOf(sum: int, sumSq: int, count: nat, stdMult: int): Option<Bands>
    requires count > 0
  {
    var middle := TruncDiv(sum, count);
    match StdDev(Variance(sum, sumSq, count))
    case None => None
    case Some(dev) =>
      var offset := BandOffset(dev, stdMult);
      Some(Bands(middle + offset, middle, middle - offset))
  }

  lemma FirstDivision(a: int, q: int, n: nat)
    requires 0 < n && a <= n * q
    ensures 0 <= q - a / n && n * q - a <= n * (q - a / n) < n * q - a + n
  {
    var b := a / n;
    DivBounds(a, n);
    QuotientAtMost(a, n, q);
    assert n * (q - b) == n * q - b * n;
  }

  lemma SecondDivision(g: nat, n: nat)
    requires 0 < n
    ensures 0 <= g / n && n * g - n * n < n * (n * (g / n)) <= n * g
  {
    var v := g / n;
    DivBounds(g, n);
    assert v * n == n * v;
    MulMonotone(n * v, g, n);
    MulMonotone(g, n * v + n - 1, n);
    assert (n * v + n - 1) * n == n * (n * v) + n * n - n;
  }

  /** What the two truncating divisions by `n` make of a non-negative gap. */
  lemma VarianceOfGap(sum: int, sumSq: int, n: nat, gap: nat)
    requires 0 < n && n * sumSq - Square(sum) == gap
    ensures 0 <= Variance(sum, sumSq, n) && gap - n * n < n * (n * Variance(sum, sumSq, n)) < gap + n
  {
    FirstDivision(Square(sum), sumSq, n);
    SecondDivision(sumSq - Square(sum) / n, n);
  }

  /**
   Recomputed over any window, the integer variance is never negative and misses the true
   one, the pairwise spread over n^2, by less than one unit below and 1/n above.
   */
  lemma VarianceBracketed(w: seq<int>)
    requires w != []
    ensures var n, v := |w|, Variance(SumOf(w), SumOf(Squares(w)), |w|);
      0 <= v && PairSpread(w) - n * n < n * (n * v) < PairSpread(w) + n
  {
    SumsGiveSpread(w);
    VarianceOfGap(SumOf(w), SumOf(Squares(w)), |w|, PairSpread(w));
  }

  lemma QuotientAtMost(a: int, n: nat, q: int)
    requires 0 < n && a <= n * q
    ensures a / n <= q
  {
    DivBounds(a, n);
    if q < a / n {
      MulMonotone(q + 1, a / n, n);
    }
  }

  lemma RootFitsHalfWord(r: nat)
    requires r * r < U64
    ensures r < U32
  {
    if r >= U32 {
      SquareMonotone(U32, r);
    }
  }

  lemma DeviationFits(variance: int)
    ensures StdDev(variance).Some? ==> StdDev(variance).value < U32
  {
    if variance > 0 && StdDev(variance).Some? {
      RootFitsHalfWord(FloorSqrt(variance % U64));
    }
  }

  /**
   The deviation is the square root of the variance exactly while the variance fits the
   cast: from 2^64 - 1 on it panics or is far too small.
   */
  lemma StdDevExactIff(variance: nat)
    ensures StdDev(variance).Some? && IsFloorSqrt(StdDev(variance).value, variance) <==> variance < U64 - 1
  {
    if variance < U64 {
      DivUnique(variance, U64, 0, variance);
    } else if StdDev(variance).Some? {
      var r := StdDev(variance).value;
      DeviationFits(variance);
      SquareMonotone(r + 1, U32);
    }
  }

  /** A variance that is not positive gives the deviation 0. */
  lemma NoSpread(variance: int)
    requires variance <= 0
    ensures StdDev(variance) == Some(0)
  {
  }

  lemma OffsetNonNegative(dev: nat, stdMult: nat)
    requires dev < U32 && stdMult <= MAX_MULTIPLIER
    ensures BandOffset(dev, stdMult) >= 0
  {
    MulMonotone(0, dev, stdMult);
    MulMonotone(dev, U32 - 1, stdMult);
    MulMonotone(stdMult, MAX_MULTIPLIER, U32 - 1);
    FitsI64(dev * stdMult);
  }

  lemma FitsI64(x: nat)
    requires x <= I64_MAX
    ensures WrapI64(x) == x && TruncDiv(WrapI64(x), SCALE) >= 0
  {
  }

  /** With a multiplier of at most 2^31 no product overflows and the bands never cross. */
  lemma BandsOrdered(sum: int, sumSq: int, count: nat, stdMult: int)
    requires count > 0 && 0 <= stdMult <= MAX_MULTIPLIER
    ensures var b := BandsOf(sum, sumSq, count, stdMult);
      b.Some? ==> b.value.lower <= b.value.middle <= b.value.upper
  {
    var variance := Variance(sum, sumSq, count);
    DeviationFits(variance);
    if StdDev(variance).Some? {
      OffsetNonNegative(StdDev(variance).value, stdMult);
    }
  }

  /** A multiplier of 1.0 puts the outer bands exactly one deviation from the middle. */
  lemma UnitMultiplier(sum: int, sumSq: int, count: nat)
    requires count > 0 && StdDev(Variance(sum, sumSq, count)).Some?
    ensures var b, dev := BandsOf(sum, sumSq, count, SCALE), StdDev(Variance(sum, sumSq, count)).value;
      b == Some(Bands(TruncDiv(sum, count) + dev, TruncDiv(sum, count), TruncDiv(sum, count) - dev))
  {
    var dev := StdDev(Variance(sum, sumSq, count)).value;
    DeviationFits(Variance(sum, sumSq, count));
    MulMonotone(dev, U32 - 1, SCALE);
    FitsI64(dev * SCALE);
    DivUnique(dev * SCALE, SCALE, dev, 0);
  }

  /** A larger multiplier never gives narrower bands. */
  lemma OffsetGrows(dev: nat, small: nat, large: nat)
    requires dev < U32 && small <= large <= MAX_MULTIPLIER
    ensures BandOffset(dev, small) <= BandOffset(dev, large)
  {
    MulMonotone(small, large, dev);
    MulMonotone(dev, U32 - 1, large);
    MulMonotone(large, MAX_MULTIPLIER, U32 - 1);
    FitsI64(dev * small);
    FitsI64(dev * large);
    DivMonotone(dev * small, dev * large, SCALE);
  }

  lemma SquaresOfWindow(h: seq<int>, p: nat)
    ensures Window(Squares(h), p) == Squares(Window(h, p))
  {
  }

  lemma SquaresBounded(h: seq<int>, bound: nat)
    requires Bounded(h, bound)
    ensures Bounded(Squares(h), bound * bound)
  {
    forall i | 0 <= i < |h| ensures 0 <= h[i] * h[i] <= bound * bound {
      SquareAtMost(h[i], bound);
    }
  }

  lemma SquareAtMost(x: int, bound: nat)
    requires 0 - bound <= x <= bound
    ensures 0 <= x * x <= bound * bound
  {
    var m := if x >= 0 then x else -x;
    MulMonotone(m, bound, m);
    MulMonotone(m, bound, bound);
  }

  /** The squares of prices whose sum fits an i64 sum up within an i128. */
  lemma SquaresFit(p: nat, bound: nat)
    requires 0 < p && p * bound <= I64_MAX
    ensures p * (bound * bound) <= I128_MAX
  {
    MulMonotone(1, p, bound);
    MulMonotone(p * bound, I64_MAX, bound);
    MulMonotone(bound, I64_MAX, I64_MAX);
    assert p * bound * bound == p * (bound * bound);
  }

  lemma SquareSumExact(h: seq<int>, p: nat, bound: nat)
    requires 0 < p && p * bound <= I64_MAX && Bounded(h, bound)
    ensures RunningSum(Squares(h), p, I128_MAX) == SumOf(Window(Squares(h), p))
  {
    SquaresBounded(h, bound);
    SquaresFit(p, bound);
    SquareAtMost(bound, bound);
    RunningSumExact(Squares(h), p, I128_MAX, bound * bound);
  }

  /** Prices whose window cannot saturate the sum leave both running sums exact. */
  lemma RunningSumsExact(h: seq<int>, p: nat, bound: nat)
    requires 0 < p && p * bound <= I64_MAX && Bounded(h, bound)
    ensures RunningSum(h, p, I64_MAX) == SumOf(Window(h, p))
    ensures RunningSum(Squares(h), p, I128_MAX) == SumOf(Squares(Window(h, p)))
  {
    RunningSumExact(h, p, I64_MAX, bound);
    SquareSumExact(h, p, bound);
    SquaresOfWindow(h, p);
  }

  /** The bands recomputed from the prices of a window. */
  ghost function BandsOfWindow(w: seq<int>, stdMult: int): Option<Bands>
    requires w != []
  {
    BandsOf(SumOf(w), SumOf(Squares(w)), |w|, stdMult)
  }

  ghost predicate Ordered(b: Option<Bands>) {
    b.Some? ==> b.value.lower <= b.value.middle <= b.value.upper
  }

  /**
   After any run of prices whose window cannot saturate the sum, the bands are built on the
   true window, whose variance is not negative, and they are ordered.
   */
  lemma RunBands(h: seq<int>, p: nat, bound: nat, stdMult: int)
    requires h != [] && 0 < p && p * bound <= I64_MAX && Bounded(h, bound) && 0 <= stdMult <= MAX_MULTIPLIER
    ensures var w, b := Window(h, p), BandsAfter(h, p, stdMult);
      && b == BandsOfWindow(w, stdMult) && Ordered(b)
      && Variance(SumOf(w), SumOf(Squares(w)), |w|) >= 0
  {
    var w := Window(h, p);
    RunningSumsExact(h, p, bound);
    VarianceBracketed(w);
    BandsOrdered(SumOf(w), SumOf(Squares(w)), |w|, stdMult);
  }

  // ---------------------------------------------------------------- which multipliers are safe

  /** A quiet window around 0 with the given deviation. */
  function Swing(dev: nat): seq<int> {
    [0 - dev, dev]
  }

  lemma SwingSums(dev: nat)
    ensures SumOf(Swing(dev)) == 0 && SumOf(Squares(Swing(dev))) == 2 * Square(dev)
  {
    var w := Swing(dev);
    assert w[..1] == [0 - dev] && w[..1][..0] == [];
    assert SumOf(w) == SumOf(w[..1]) + dev;
    assert SumOf(w[..1]) == 0 - dev;
    assert Squares(w) == [Square(0 - dev), Square(dev)];
    assert Squares(w)[..1] == [Square(0 - dev)] && Squares(w)[..1][..0] == [];
    assert SumOf(Squares(w)) == SumOf(Squares(w)[..1]) + Square(dev);
    assert SumOf(Squares(w)[..1]) == Square(0 - dev) == Square(dev);
  }

  lemma VarianceOfTwo(x: int)
    ensures Variance(0, 2 * x, 2) == x
  {
    TruncDivExact(2, x);
  }

  lemma SwingDeviation(dev: nat)
    requires dev < U32
    ensures StdDev(Variance(0, SumOf(Squares(Swing(dev))), 2)) == Some(dev)
  {
    SwingSums(dev);
    VarianceOfTwo(Square(dev));
    SquareMonotone(dev, U32 - 1);
    RootOfSquare(dev);
  }

  lemma BandsAroundZero(w: seq<int>, stdMult: int, dev: nat)
    requires |w| == 2 && SumOf(w) == 0 && StdDev(Variance(0, SumOf(Squares(w)), 2)) == Some(dev)
    ensures var o := BandOffset(dev, stdMult);
      BandsOfWindow(w, stdMult) == Some(Bands(o, 0, 0 - o))
  {
  }

  lemma SwingBands(dev: nat, stdMult: int)
    requires dev < U32
    ensures var o := BandOffset(dev, stdMult);
      BandsOfWindow(Swing(dev), stdMult) == Some(Bands(o, 0, 0 - o))
  {
    SwingSums(dev);
    SwingDeviation(dev);
    BandsAroundZero(Swing(dev), stdMult, dev);
  }

  lemma RootOfSquare(dev: nat)
    requires Square(dev) < U64 - 1
    ensures StdDev(Square(dev)) == Some(dev)
  {
    SquareNonNegative(dev);
    if dev > 0 {
      MulMonotone(1, dev, dev);
      DivUnique(Square(dev), U64, 0, Square(dev));
      assert IsFloorSqrt(dev, Square(dev));
      FloorSqrtUnique(dev, FloorSqrt(Square(dev)), Square(dev));
    }
  }

  /** A product that lands in the upper half of the word, at least a unit below it, turns the bands over. */
  lemma NegativeOffset(dev: nat, stdMult: int)
    requires WrapI64(dev * stdMult) <= 0 - SCALE
    ensures BandOffset(dev, stdMult) < 0
  {
    DivMonotone(SCALE, 0 - WrapI64(dev * stdMult), SCALE);
  }

  lemma WrapsTo(x: int, k: int, r: int)
    requires x == k * U64 + r && I64_MIN <= r <= I64_MAX
    ensures WrapI64(x) == r
  {
    if r >= 0 {
      DivUnique(x, U64, k, r);
    } else {
      DivUnique(x, U64, k - 1, r + U64);
    }
  }

  /** Every multiplier outside the safe range turns the bands over for some deviation. */
  lemma BadDeviation(stdMult: int) returns (dev: nat)
    requires I64_MIN <= stdMult <= I64_MAX && (stdMult < 0 || stdMult > MAX_MULTIPLIER)
    ensures dev < U32 && BandOffset(dev, stdMult) < 0
  {
    if stdMult < 0 {
      dev := if stdMult <= 0 - SCALE then 1 else SCALE;
      WrapsTo(dev * stdMult, 0, dev * stdMult);
    } else if stdMult <= I64_MAX + 1 - SCALE {
      dev := LeastProduct(stdMult);
      WrapsTo(dev * stdMult, 1, dev * stdMult - U64);
    } else {
      var e := I64_MAX + 1 - stdMult;
      dev := 2 * SCALE;
      WrapsTo(dev * stdMult, SCALE, 0 - dev * e);
    }
    NegativeOffset(dev, stdMult);
  }

  /** The least multiple of `m` that leaves i64 is less than one `m` beyond it. */
  lemma LeastProduct(m: nat) returns (dev: nat)
    requires MAX_MULTIPLIER < m
    ensures dev < U32 && I64_MAX + 1 <= dev * m < I64_MAX + 1 + m
  {
    var half := I64_MAX + 1;
    dev := (half + m - 1) / m;
    DivBounds(half + m - 1, m);
    MulMonotone(MAX_MULTIPLIER + 1, m, U32 - 1);
    MulOrder(U32, dev, m);
    assert (U32 - 1) * m == U32 * m - m;
  }

  /**
   The bands of every window are ordered if and only if the multiplier lies between 0 and
   2^31: above it the product wraps for some deviation, below it the sides change places.
   */
  lemma BandsOrderedIff(stdMult: int)
    requires I64_MIN <= stdMult <= I64_MAX
    ensures (forall w: seq<int> :: w != [] ==> Ordered(BandsOfWindow(w, stdMult))) <==> 0 <= stdMult <= MAX_MULTIPLIER
  {
    if 0 <= stdMult <= MAX_MULTIPLIER {
      forall w: seq<int> | w != [] ensures Ordered(BandsOfWindow(w, stdMult)) {
        BandsOrdered(SumOf(w), SumOf(Squares(w)), |w|, stdMult);
      }
    } else {
      var dev := BadDeviation(stdMult);
      SwingBands(dev, stdMult);
      assert !Ordered(BandsOfWindow(Swing(dev), stdMult));
    }
  }

  lemma {:induction false} ConstantSums(w: seq<int>, c: int)
    requires forall i :: 0 <= i < |w| ==> w[i] == c
    ensures SumOf(w) == |w| * c && SumOf(Squares(w)) == |w| * (c * c)
  {
    if w != [] {
      ConstantSums(w[..|w| - 1], c);
      assert Squares(w)[..|w| - 1] == Squares(w[..|w| - 1]);
      OneMore(|w|, c);
      OneMore(|w|, c * c);
    }
  }

  lemma TruncDivExact(n: nat, c: int)
    requires n > 0
    ensures TruncDiv(n * c, n) == c
  {
    if c >= 0 {
      MulMonotone(0, c, n);
      DivUnique(n * c, n, c, 0);
    } else {
      MulMonotone(c, -1, n);
      DivUnique(-(n * c), n, -c, 0);
    }
  }

  lemma SquareOfProduct(n: nat, c: int)
    requires n > 0
    ensures ((n * c) * (n * c)) / n == n * (c * c)
  {
    assert (n * c) * (n * c) == (n * (c * c)) * n;
    DivUnique((n * c) * (n * c), n, n * (c * c), 0);
  }

  /** Bands built on a window of one price sit on it. */
  lemma FlatMarket(w: seq<int>, c: int, stdMult: int)
    requires w != [] && forall i :: 0 <= i < |w| ==> w[i] == c
    ensures BandsOf(SumOf(w), SumOf(Squares(w)), |w|, stdMult) == Some(Bands(c, c, c))
  {
    ConstantSums(w, c);
    SquareOfProduct(|w|, c);
    TruncDivExact(|w|, 0);
    TruncDivExact(|w|, c);
    assert Variance(SumOf(w), SumOf(Squares(w)), |w|) == 0;
  }

  /** The bands after a run of prices, from the two running sums. */
  ghost function BandsAfter(h: seq<int>, p: nat, stdMult: int): Option<Bands>
    requires h != [] && p > 0
  {
    BandsOf(RunningSum(h, p, I64_MAX), RunningSum(Squares(h), p, I128_MAX), Min(|h|, p), stdMult)
  }

  /** One more copy of a value in a register that can hold `p` of them. */
  lemma SlideConstant(n: nat, p: nat, c: int, limit: int)
    requires p > 0 && 0 <= limit && 0 - limit - 1 <= p * c <= limit
    ensures Slide(Min(n, p) * c, n >= p, c, c, limit) == Min(n + 1, p) * c
  {
    PartFits(Min(n + 1, p), p, c, limit);
    PartFits(p - 1, p, c, limit);
    OneMore(Min(n + 1, p), c);
  }

  /** A register that can hold `p` copies of a value holds the sum of the copies it has seen. */
  lemma {:induction false} RunningSumOfConstant(h: seq<int>, p: nat, c: int, limit: int)
    requires p > 0 && 0 <= limit && 0 - limit - 1 <= p * c <= limit
    requires forall i :: 0 <= i < |h| ==> h[i] == c
    ensures RunningSum(h, p, limit) == Min(|h|, p) * c
  {
    if h != [] {
      var n := |h| - 1;
      RunningSumOfConstant(h[..n], p, c, limit);
      SlideConstant(n, p, c, limit);
      assert n >= p ==> Oldest(h[..n], p) == c;
    }
  }

  lemma PartFits(k: nat, p: nat, c: int, limit: int)
    requires k <= p && 0 <= limit && 0 - limit - 1 <= p * c <= limit
    ensures 0 - limit - 1 <= k * c <= limit
  {
    if c >= 0 {
      MulMonotone(k, p, c);
    } else {
      MulMonotone(k, p, 0 - c);
    }
  }

  lemma SquaresOfConstantFit(p: nat, c: int)
    requires p > 0 && I64_MIN <= p * c <= I64_MAX
    ensures 0 <= p * (c * c) <= I128_MAX
  {
    var m := if c >= 0 then c else 0 - c;
    MulMonotone(1, p, m);
    MulMonotone(p * m, I64_MAX + 1, m);
    MulMonotone(m, I64_MAX + 1, I64_MAX + 1);
    assert p * m * m == p * (c * c);
    MulMonotone(0, m, m);
    MulMonotone(0, m * m, p);
  }

  /** A truncated quotient lies between 0 and the exact one. */
  lemma QuotientInside(sum: int, p: nat, c: int)
    requires p > 0 && TruncDiv(sum, p) == c
    ensures 0 <= p * c <= sum || sum <= p * c <= 0
  {
    DivBounds(if sum >= 0 then sum else 0 - sum, p);
  }

  /** A run of one price puts every band on it, while a full window of it fits an i64. */
  lemma FlatRun(h: seq<int>, p: nat, c: int, stdMult: int)
    requires h != [] && p > 0 && (forall i :: 0 <= i < |h| ==> h[i] == c) && I64_MIN <= p * c <= I64_MAX
    ensures BandsAfter(h, p, stdMult) == Some(Bands(c, c, c))
  {
    var w := Window(h, p);
    SquaresOfConstantFit(p, c);
    RunningSumOfConstant(h, p, c, I64_MAX);
    RunningSumOfConstant(Squares(h), p, c * c, I128_MAX);
    ConstantSums(w, c);
    FlatMarket(w, c, stdMult);
  }

  lemma RegisterRange(h: seq<int>, p: nat, limit: int)
    requires p > 0 && 0 <= limit
    ensures 0 - limit - 1 <= RunningSum(h, p, limit) <= limit
  {
  }

  /** A full window of one price that does not fit an i64 leaves the middle band off it. */
  lemma SaturatedOffPrice(h: seq<int>, p: nat, c: int, stdMult: int)
    requires p > 0 && |h| == p && !(I64_MIN <= p * c <= I64_MAX)
    ensures BandsAfter(h, p, stdMult) != Some(Bands(c, c, c))
  {
    var sum := RunningSum(h, p, I64_MAX);
    RegisterRange(h, p, I64_MAX);
    if TruncDiv(sum, p) == c {
      QuotientInside(sum, p, c);
    }
  }

  ghost predicate AlwaysOnPrice(p: nat, c: int, stdMult: int)
    requires p > 0
  {
    forall h: seq<int> :: h != [] && (forall i :: 0 <= i < |h| ==> h[i] == c)
      ==> BandsAfter(h, p, stdMult) == Some(Bands(c, c, c))
  }

  /** On every run of one price all three bands sit on it if and only if a full window of it fits an i64. */
  lemma FlatMarketIff(p: nat, c: int, stdMult: int)
    requires p > 0
    ensures AlwaysOnPrice(p, c, stdMult) <==> I64_MIN <= p * c <= I64_MAX
  {
    if I64_MIN <= p * c <= I64_MAX {
      forall h: seq<int> | h != [] && (forall i :: 0 <= i < |h| ==> h[i] == c)
        ensures BandsAfter(h, p, stdMult) == Some(Bands(c, c, c))
      {
        FlatRun(h, p, c, stdMult);
      }
    } else {
      var h := Constant(c, p);
      SaturatedOffPrice(h, p, c, stdMult);
      assert |h| > 0;
    }
  }

  // ---------------------------------------------------------------- the indicator in place

  method Deviation(variance: int) returns (r: Option<nat>)
    ensures r == StdDev(variance)
  {
    if variance <= 0 {
      return Some(0);
    }
    r := Isqrt(variance % U64);
    if r.Some? {
      FloorSqrtUnique(r.value, FloorSqrt(variance % U64), variance % U64);
    }
  }

  method ComputeBands(sum: int, sumSq: int, count: nat, stdMult: int) returns (result: Option<Bands>)
    requires count > 0
    ensures result == BandsOf(sum, sumSq, count, stdMult)
  {
    var middleBand := TruncDiv(sum, count);
    var meanSq := Square(sum) / count;
    var variance := TruncDiv(sumSq - meanSq, count);
    var stdDev := Deviation(variance);
    if stdDev.None? {
      return None;
    }
    var bandOffset := BandOffset(stdDev.value, stdMult);
    result := Some(Bands(middleBand + bandOffset, middleBand, middleBand - bandOffset));
  }

  /** The registers and the buffer of an indicator that has seen the prices `h`. */
  ghost predicate Tracks(buffer: seq<int>, h: seq<int>, p: nat, sum: int, sumSq: int)
    requires 0 < p <= |buffer|
  {
    && Buffered(buffer, h, p)
    && sum == RunningSum(h, p, I64_MAX)
    && sumSq == RunningSum(Squares(h), p, I128_MAX)
  }

  lemma TracksPush(buffer: seq<int>, h: seq<int>, p: nat, sum: int, sumSq: int, x: int)
    requires 0 < p <= |buffer| && Tracks(buffer, h, p, sum, sumSq)
    ensures var i, full := Slot(|h|, p), |h| >= p;
      Tracks(buffer[i := x], h + [x], p, Slide(sum, full, buffer[i], x, I64_MAX),
             Slide(sumSq, full, Square(buffer[i]), Square(x), I128_MAX))
  {
    BufferPush(buffer, h, p, x);
    RunningSumSnoc(h, x, p, I64_MAX);
    SquaresSnoc(h, x);
    RunningSumSnoc(Squares(h), Square(x), p, I128_MAX);
    if |h| >= p {
      OldestInSlot(buffer, h, p);
    }
  }

  class Bollinger {
    const priceBuffer: array<int>
    const period: nat
    const stdMult: int
    var sum: int
    var sumSq: int
    var idx: nat
    var count: nat
    var upperBand: int
    var middleBand: int
    var lowerBand: int
    ghost var history: seq<int>

    ghost predicate Valid()
      reads this, priceBuffer
    {
      && 0 < period <= MAX_WINDOW == priceBuffer.Length
      && idx == |history| && count == Min(|history|, period)
      && Tracks(priceBuffer[..], history, period, sum, sumSq)
    }

    constructor (period: nat, stdMult: int)
      requires 0 < period <= MAX_WINDOW
      ensures Valid() && fresh(priceBuffer) && history == [] && this.period == period && this.stdMult == stdMult
    {
      priceBuffer := new int[MAX_WINDOW](_ => 0);
      this.period, this.stdMult := period, stdMult;
      sum, sumSq, idx, count := 0, 0, 0, 0;
      upperBand, middleBand, lowerBand := 0, 0, 0;
      history := [];
    }

    /** None when the square root panics; the window has been updated by then. */
    method Update(price: int) returns (result: Option<Bands>)
      requires Valid()
      modifies this`sum, this`sumSq, this`idx, this`count, this`upperBand, this`middleBand, this`lowerBand, this`history, priceBuffer
      ensures Valid() && history == old(history) + [price]
      ensures result == BandsOf(sum, sumSq, count, stdMult)
      ensures result.Some? ==> result.value == Bands(upperBand, middleBand, lowerBand)
      ensures Bounded(history, PriceLimit(period)) ==>
        var w := Window(history, period); result == BandsOf(SumOf(w), SumOf(Squares(w)), |w|, stdMult)
    {
      Push(price);
      if Bounded(history, PriceLimit(period)) {
        RunningSumsExact(history, period, PriceLimit(period));
      }
      result := Recompute();
    }

    method Recompute() returns (result: Option<Bands>)
      requires count > 0
      modifies this`upperBand, this`middleBand, this`lowerBand
      ensures result == BandsOf(sum, sumSq, count, stdMult)
      ensures result.Some? ==> result.value == Bands(upperBand, middleBand, lowerBand)
    {
      result := ComputeBands(sum, sumSq, count, stdMult);
      if result.Some? {
        upperBand, middleBand, lowerBand := result.value.upper, result.value.middle, result.value.lower;
      }
    }

    method Push(price: int)
      requires Valid()
      modifies this`sum, this`sumSq, this`idx, this`count, this`history, priceBuffer
      ensures Valid() && history == old(history) + [price] && count > 0
    {
      TracksPush(priceBuffer[..], history, period, sum, sumSq, price);
      SlideWindow(Slot(idx, period), price);
      history := history + [price];
    }

    /** A full window gives up its oldest price; otherwise the window grows. */
    method SlideWindow(i: nat, price: int)
      requires i < priceBuffer.Length
      modifies this`sum, this`sumSq, this`idx, this`count, priceBuffer
      ensures priceBuffer[..] == old(priceBuffer[..])[i := price] && idx == old(idx) + 1
      ensures count == if old(count) >= period then old(count) else old(count) + 1
      ensures sum == Slide(old(sum), old(count) >= period, old(priceBuffer[i]), price, I64_MAX)
      ensures sumSq == Slide(old(sumSq), old(count) >= period, Square(old(priceBuffer[i])), Square(price), I128_MAX)
    {
      if count >= period {
        var oldPrice := priceBuffer[i];
        sum := Clamp(sum - oldPrice, I64_MAX);
        sumSq := Clamp(sumSq - oldPrice * oldPrice, I128_MAX);
      } else {
        count := count + 1;
      }
      priceBuffer[i] := price;
      sum := Clamp(sum + price, I64_MAX);
      sumSq := Clamp(sumSq + price * price, I128_MAX);
      idx := idx + 1;
    }
  }
}
