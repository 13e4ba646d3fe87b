/** The streaming averages: a fixed-point EMA in i64 registers, and the O(1) windowed SMA. */
module StreamingTa {
  import opened Machine
  import opened RollingWindow

  // ---------------------------------------------------------------- EMA

  function Multiplier(period: nat): nat {
    (2 * SCALE) / (period + 1)
  }

  /** `value * weight / SCALE`, the product wrapping in i64 and the quotient truncated. */
  function Part(value: int, weight: int): int {
    TruncDiv(WrapI64(value * weight), SCALE)
  }

  /** One update. */
  function Step(value: int, price: int, multiplier: int): int {
    Part(price, multiplier) + Part(value, SCALE - multiplier)
  }

  /** The value after a run of updates on a fresh average. */
  function Ema(prices: seq<int>, multiplier: int): int
    requires prices != []
  {
    if |prices| == 1 then prices[0]
    else Step(Ema(prices[..|prices| - 1], multiplier), prices[|prices| - 1], multiplier)
  }

  /** The same update in unbounded arithmetic. */
  function ExactStep(value: int, price: int, multiplier: int): int {
    ExactPart(price, multiplier) + ExactPart(value, SCALE - multiplier)
  }

  function ExactPart(value: int, weight: int): int {
    TruncDiv(value * weight, SCALE)
  }

  /** A wrapped product always loses. */
  lemma PartLoses(value: nat, weight: nat)
    ensures 0 <= ExactPart(value, weight) && Part(value, weight) <= ExactPart(value, weight)
    ensures Part(value, weight) == ExactPart(value, weight) <==> value * weight <= I64_MAX
  {
    var x := value * weight;
    MulMonotone(0, value, weight);
    if x > I64_MAX {
      assert WrapI64(x) <= x - U64 by {
        DivBounds(x, U64);
      }
      TruncDivGap(WrapI64(x), x);
    }
  }

  lemma TruncDivGap(a: int, b: int)
    requires a + U64 <= b && 0 <= b
    ensures TruncDiv(a, SCALE) < TruncDiv(b, SCALE)
  {
    DivBounds(b, SCALE);
    if a >= 0 {
      DivBounds(a, SCALE);
    } else {
      DivBounds(-a, SCALE);
    }
  }

  /** On non-negative data an update is exact precisely when neither product leaves i64. */
  lemma StepExactIff(value: nat, price: nat, multiplier: nat)
    requires multiplier <= SCALE
    ensures Step(value, price, multiplier) == ExactStep(value, price, multiplier) <==>
      price * multiplier <= I64_MAX && value * (SCALE - multiplier) <= I64_MAX
  {
    PartLoses(price, multiplier);
    PartLoses(value, SCALE - multiplier);
  }

  /** A price of 50000 units with period 10 is already outside: the average reads below 200. */
  lemma LargePriceOverflows()
    ensures var p := 50_000 * SCALE;
      Ema([p, p], Multiplier(10)) < 200 * SCALE < 49_999 * SCALE < ExactStep(p, p, Multiplier(10))
  {
    var p := 50_000 * SCALE;
    assert [p, p][..1] == [p];
    assert p * 18_181_818 == 4 * U64 + 17_122_113_705_161_793_536;
    assert p * 81_818_182 == 22 * U64 + 3_262_540_378_389_864_448;
    assert WrapI64(p * 18_181_818) == -1_324_630_368_547_758_080;
    assert WrapI64(p * 81_818_182) == 3_262_540_378_389_864_448;
  }

  /** Neither product of an update can leave i64 for prices and values up to `high`. */
  predicate Fits(high: int, m: int) {
    high * m <= I64_MAX && high * (SCALE - m) <= I64_MAX
  }

  lemma FitsBelow(x: nat, high: nat, m: nat)
    requires x <= high && m <= SCALE && Fits(high, m)
    ensures Fits(x, m) && 0 <= x * m && 0 <= x * (SCALE - m)
  {
    MulMonotone(x, high, m);
    MulMonotone(x, high, SCALE - m);
    MulMonotone(0, x, m);
    MulMonotone(0, x, SCALE - m);
  }

  /** Two truncations lose less than two units together. */
  lemma TwoFloors(a: nat, b: nat)
    ensures a + b - 2 * SCALE < (TruncDiv(a, SCALE) + TruncDiv(b, SCALE)) * SCALE <= a + b
  {
    DivBounds(a, SCALE);
    DivBounds(b, SCALE);
  }

  lemma TwoParts(price: nat, m: nat, value: nat, n: nat)
    ensures price * m + value * n - 2 * SCALE
      < (ExactPart(price, m) + ExactPart(value, n)) * SCALE <= price * m + value * n
  {
    MulMonotone(0, price, m);
    MulMonotone(0, value, n);
    TwoFloors(price * m, value * n);
  }

  /** How far one update can fall below the floor `low`, times the multiplier. */
  lemma DriftStep(low: int, value: int, value': int, m: nat)
    requires 0 < m <= SCALE
    requires (low - value) * m <= 2 * SCALE
    requires SCALE * (low - value') <= (SCALE - m) * (low - value) + 2 * SCALE
    ensures (low - value') * m <= 2 * SCALE
  {
    var e, d := low - value, low - value';
    MulMonotone(SCALE * d, (SCALE - m) * e + 2 * SCALE, m);
    MulMonotone(e * m, 2 * SCALE, SCALE - m);
    assert (SCALE * d) * m == SCALE * (d * m);
    assert ((SCALE - m) * e + 2 * SCALE) * m == (SCALE - m) * (e * m) + 2 * SCALE * m;
    assert (e * m) * (SCALE - m) == (SCALE - m) * (e * m);
    assert SCALE * (d * m) <= 2 * SCALE * SCALE;
  }

  lemma StepUpper(high: nat, value: nat, price: nat, m: nat, n: nat)
    requires m + n == SCALE && price <= high && value <= high
    ensures ExactPart(price, m) + ExactPart(value, n) <= high
  {
    TwoParts(price, m, value, n);
    MulMonotone(price, high, m);
    MulMonotone(value, high, n);
    assert high * m + high * n == high * SCALE;
  }

  lemma StepLower(low: nat, value: nat, price: nat, m: nat, n: nat)
    requires m + n == SCALE && low <= price
    ensures SCALE * (low - (ExactPart(price, m) + ExactPart(value, n))) <= n * (low - value) + 2 * SCALE
  {
    TwoParts(price, m, value, n);
    MulMonotone(low, price, m);
    assert low * m + low * n == low * SCALE;
    assert n * (low - value) == low * n - value * n;
  }

  lemma StepWithin(value: nat, price: nat, high: nat, m: nat)
    requires value <= high && price <= high && m <= SCALE && Fits(high, m)
    ensures Step(value, price, m) == ExactStep(value, price, m) && 0 <= Step(value, price, m) <= high
  {
    PartLoses(price, m);
    PartLoses(value, SCALE - m);
    FitsBelow(price, high, m);
    FitsBelow(value, high, m);
    StepExactIff(value, price, m);
    StepUpper(high, value, price, m, SCALE - m);
  }

  lemma StepBounds(low: nat, high: nat, value: nat, price: nat, m: nat)
    requires 0 < m <= SCALE && low <= price <= high && value <= high && Fits(high, m)
    requires (low - value) * m <= 2 * SCALE
    ensures 0 <= Step(value, price, m) <= high
    ensures (low - Step(value, price, m)) * m <= 2 * SCALE
  {
    StepWithin(value, price, high, m);
    StepLower(low, value, price, m, SCALE - m);
    DriftStep(low, value, Step(value, price, m), m);
  }

  /** Each update scales the gap to the price by (1 - multiplier), up to two units of rounding. */
  lemma GapShrinks(value: nat, price: nat, m: nat)
    requires m <= SCALE && price * m <= I64_MAX && value * (SCALE - m) <= I64_MAX
    ensures var n := SCALE - m; var next := Step(value, price, m);
      n * (price - value) <= SCALE * (price - next) < n * (price - value) + 2 * SCALE
  {
    MulMonotone(0, price, m);
    MulMonotone(0, value, SCALE - m);
    StepExactIff(value, price, m);
    TwoParts(price, m, value, SCALE - m);
    GapOf(value, price, m, SCALE - m, Step(value, price, m));
  }

  lemma GapOf(value: nat, price: nat, m: nat, n: nat, next: int)
    requires m + n == SCALE && price * m + value * n - 2 * SCALE < next * SCALE <= price * m + value * n
    ensures n * (price - value) <= SCALE * (price - next) < n * (price - value) + 2 * SCALE
  {
    assert price * m + price * n == price * SCALE;
    assert n * (price - value) == price * n - value * n;
  }

  function Lowest(s: seq<int>): int
    requires s != []
  {
    if |s| == 1 then s[0] else Min(Lowest(s[..|s| - 1]), s[|s| - 1])
  }

  function Highest(s: seq<int>): int
    requires s != []
  {
    if |s| == 1 then s[0] else Max(Highest(s[..|s| - 1]), s[|s| - 1])
  }

  lemma {:induction false} ExtremesBound(s: seq<int>)
    requires s != []
    ensures forall i :: 0 <= i < |s| ==> Lowest(s) <= s[i] <= Highest(s)
    ensures Lowest(s) in s && Highest(s) in s
  {
    if |s| > 1 {
      ExtremesBound(s[..|s| - 1]);
      forall i | 0 <= i < |s| ensures Lowest(s) <= s[i] <= Highest(s) {
        if i < |s| - 1 {
          assert s[i] == s[..|s| - 1][i];
        }
      }
    }
  }

  /** Non-negative prices up to `high`. */
  ghost predicate Within(prices: seq<int>, high: nat) {
    forall i :: 0 <= i < |prices| ==> 0 <= prices[i] <= high
  }

  /** The average in unbounded arithmetic. */
  function ExactEma(prices: seq<int>, multiplier: int): int
    requires prices != []
  {
    if |prices| == 1 then prices[0]
    else ExactStep(ExactEma(prices[..|prices| - 1], multiplier), prices[|prices| - 1], multiplier)
  }

  ghost predicate EmaAlwaysExact(high: nat, m: nat) {
    forall prices: seq<int> :: prices != [] && Within(prices, high) ==> Ema(prices, m) == ExactEma(prices, m)
  }

  lemma {:induction false} EmaExact(prices: seq<int>, high: nat, m: nat)
    requires prices != [] && Within(prices, high) && m <= SCALE && Fits(high, m)
    ensures Ema(prices, m) == ExactEma(prices, m) && 0 <= Ema(prices, m) <= high
  {
    if |prices| > 1 {
      var shorter, price := prices[..|prices| - 1], prices[|prices| - 1];
      EmaExact(shorter, high, m);
      StepWithin(Ema(shorter, m), price, high, m);
    }
  }

  /** The average is exact on every run of prices up to `high` if and only if both products fit at `high`. */
  lemma EmaExactIff(high: nat, m: nat)
    requires m <= SCALE
    ensures EmaAlwaysExact(high, m) <==> Fits(high, m)
  {
    if Fits(high, m) {
      forall prices: seq<int> | prices != [] && Within(prices, high)
        ensures Ema(prices, m) == ExactEma(prices, m)
      {
        EmaExact(prices, high, m);
      }
    } else {
      var prices := [high, high];
      assert prices[..1] == [high];
      StepExactIff(high, high, m);
      assert Within(prices, high) && Ema(prices, m) != ExactEma(prices, m);
    }
  }

  /**
   After any run of non-negative prices for which no product overflows the average is at
   most the highest price, and the truncation drift below the lowest price stays within a
   bound set by the multiplier alone, however long the run.
   */
  lemma {:induction false} EmaStaysInRange(prices: seq<int>, period: nat)
    requires prices != [] && 1 <= period < 2 * SCALE
    requires forall i :: 0 <= i < |prices| ==> 0 <= prices[i]
    requires |prices| > 1 ==> Fits(Highest(prices), Multiplier(period))
    ensures var m, v := Multiplier(period), Ema(prices, Multiplier(period));
      && 0 <= v <= Highest(prices) && (Lowest(prices) - v) * m <= 2 * SCALE
    decreases |prices|
  {
    var m := Multiplier(period);
    MultiplierRange(period);
    ExtremesBound(prices);
    if |prices| == 1 {
      assert Lowest(prices) - Ema(prices, m) == 0;
    } else {
      var shorter, price := prices[..|prices| - 1], prices[|prices| - 1];
      ExtremesBound(shorter);
      FitsBelow(Highest(shorter), Highest(prices), m);
      EmaStaysInRange(shorter, period);
      var value := Ema(shorter, m);
      MulMonotone(Lowest(prices) - value, Lowest(shorter) - value, m);
      StepBounds(Lowest(prices), Highest(prices), value, price, m);
    }
  }

  /** The multiplier is 2 / (period + 1) in units of the scale, rounded down. */
  lemma MultiplierIs(period: nat)
    ensures Multiplier(period) * (period + 1) <= 2 * SCALE < (Multiplier(period) + 1) * (period + 1)
  {
    DivBounds(2 * SCALE, period + 1);
  }

  lemma MultiplierRange(period: nat)
    requires 1 <= period < 2 * SCALE
    ensures 0 < Multiplier(period) <= SCALE
  {
    DivBounds(2 * SCALE, period + 1);
    if Multiplier(period) > SCALE {
      MulMonotone(SCALE + 1, Multiplier(period), period + 1);
    } else if Multiplier(period) <= 0 {
      MulMonotone(Multiplier(period), 0, period + 1);
    }
  }

  /** On a constant price without overflow the average never rises above it and sinks by a bounded amount only. */
  lemma ConstantPriceDrift(prices: seq<int>, period: nat, price: nat)
    requires prices != [] && 1 <= period < 2 * SCALE && (|prices| > 1 ==> Fits(price, Multiplier(period)))
    requires forall i :: 0 <= i < |prices| ==> prices[i] == price
    ensures var v := Ema(prices, Multiplier(period));
      v <= price && (price - v) * Multiplier(period) <= 2 * SCALE
  {
    ExtremesBound(prices);
    EmaStaysInRange(prices, period);
  }

  /** Two floored parts of `p` whole units lose one unit unless both parts are whole. */
  lemma PartsOfWhole(a: nat, b: nat, p: nat)
    requires a + b == p * SCALE
    ensures TruncDiv(a, SCALE) + TruncDiv(b, SCALE) == if a % SCALE == 0 then p else p - 1
  {
  }

  lemma PartsOfPrice(price: nat, m: nat, n: nat)
    requires m + n == SCALE
    ensures ExactPart(price, m) + ExactPart(price, n) == if (price * m) % SCALE == 0 then price else price - 1
  {
    MulMonotone(0, price, m);
    MulMonotone(0, price, n);
    assert price * m + price * n == price * SCALE;
    PartsOfWhole(price * m, price * n, price);
  }

  lemma PartMonotone(value: nat, price: nat, n: nat)
    requires value <= price
    ensures ExactPart(value, n) <= ExactPart(price, n)
  {
    MulMonotone(0, value, n);
    MulMonotone(value, price, n);
    DivMonotone(value * n, price * n, SCALE);
  }

  lemma ConstantStep(value: nat, price: nat, m: nat)
    requires value <= price && m <= SCALE && Fits(price, m)
    ensures 0 <= Step(value, price, m) <= if (price * m) % SCALE == 0 then price else price - 1
    ensures value == price && (price * m) % SCALE == 0 ==> Step(value, price, m) == price
  {
    FitsBelow(value, price, m);
    FitsBelow(price, price, m);
    PartLoses(price, m);
    PartLoses(value, SCALE - m);
    PartsOfPrice(price, m, SCALE - m);
    PartMonotone(value, price, SCALE - m);
  }

  /**
   On a constant price without overflow the average stays on the price if and only if price
   times multiplier is a whole number of units; otherwise it leaves at the second tick and
   never returns.
   */
  lemma {:induction false} ConstantKeptIff(prices: seq<int>, price: nat, m: nat)
    requires |prices| >= 2 && (forall i :: 0 <= i < |prices| ==> prices[i] == price)
    requires m <= SCALE && Fits(price, m)
    ensures 0 <= Ema(prices, m) <= price
    ensures Ema(prices, m) == price <==> (price * m) % SCALE == 0
    decreases |prices|
  {
    var shorter := prices[..|prices| - 1];
    if |shorter| > 1 {
      ConstantKeptIff(shorter, price, m);
    }
    ConstantStep(Ema(shorter, m), price, m);
  }

  /** A wrapped product puts the second tick below the price. */
  lemma OverflowLeavesPrice(price: nat, m: nat)
    requires m <= SCALE && !Fits(price, m)
    ensures Step(price, price, m) < price
  {
    var n := SCALE - m;
    PartLoses(price, m);
    PartLoses(price, n);
    StepUpper(price, price, price, m, n);
  }

  ghost predicate ConstantRunsKept(price: nat, m: nat) {
    forall prices: seq<int> :: prices != [] && (forall i :: 0 <= i < |prices| ==> prices[i] == price)
      ==> Ema(prices, m) == price
  }

  /**
   For every price: the second tick at that price keeps the average, and so does every run
   of it, if and only if neither product overflows and price times multiplier is whole.
   */
  lemma ConstantRunsKeptIff(price: nat, m: nat)
    requires m <= SCALE
    ensures Ema([price, price], m) == price <==> Fits(price, m) && (price * m) % SCALE == 0
    ensures ConstantRunsKept(price, m) <==> Fits(price, m) && (price * m) % SCALE == 0
  {
    var two := [price, price];
    assert two[..1] == [price];
    if Fits(price, m) {
      ConstantKeptIff(two, price, m);
      forall prices: seq<int> |
        (price * m) % SCALE == 0 && prices != [] && (forall i :: 0 <= i < |prices| ==> prices[i] == price)
        ensures Ema(prices, m) == price
      {
        if |prices| > 1 {
          ConstantKeptIff(prices, price, m);
        }
      }
    } else {
      OverflowLeavesPrice(price, m);
    }
    assert forall i :: 0 <= i < |two| ==> two[i] == price;
  }

  /** The drift is real: one more tick at price 1 takes a period-2 average from 1 to 0. */
  lemma DriftHappens()
    ensures Ema([1, 1], Multiplier(2)) == 0
  {
    assert [1, 1][..1] == [1];
  }

  class StreamingEma {
    const multiplier: nat
    var value: int
    var initialized: bool
    ghost var prices: seq<int>   // since the last reset

    ghost predicate Valid()
      reads this
    {
      && (initialized <==> prices != [])
      && value == if prices == [] then 0 else Ema(prices, multiplier)
    }

    constructor (period: nat)
      ensures Valid() && multiplier == Multiplier(period) && prices == []
    {
      multiplier := (2 * SCALE) / (period + 1);
      value, initialized, prices := 0, false, [];
    }

    method Update(price: int) returns (result: int)
      requires Valid()
      modifies this`value, this`initialized, this`prices
      ensures Valid() && prices == old(prices) + [price] && result == Ema(prices, multiplier)
    {
      assert (prices + [price])[..|prices|] == prices;
      if !initialized {
        value := price;
        initialized := true;
      } else {
        var priceContrib := TruncDiv(WrapI64(price * multiplier), SCALE);
        var prevContrib := TruncDiv(WrapI64(value * (SCALE - multiplier)), SCALE);
        value := priceContrib + prevContrib;
      }
      prices := prices + [price];
      result := value;
    }

    method Reset()
      modifies this`value, this`initialized, this`prices
      ensures Valid() && prices == []
    {
      value, initialized, prices := 0, false, [];
    }
  }

  // ---------------------------------------------------------------- SMA

  /** The mean of a window, truncated toward zero; 0 for an empty one. */
  function Mean(sum: int, count: nat): int {
    if count > 0 then TruncDiv(sum, count) else 0
  }

  /** The mean of nothing is 0, and otherwise the quotient rounded toward zero. */
  lemma MeanRounds(sum: int, count: nat)
    ensures count == 0 ==> Mean(sum, count) == 0
    ensures count > 0 && sum >= 0 ==> Mean(sum, count) * count <= sum < (Mean(sum, count) + 1) * count
    ensures count > 0 && sum < 0 ==> (Mean(sum, count) - 1) * count < sum <= Mean(sum, count) * count
  {
    if count > 0 {
      DivBounds(if sum >= 0 then sum else 0 - sum, count);
    }
  }

  /** The O(1) mean is the one recomputed over the last `min(n, p)` prices. */
  lemma MeanOfWindow(h: seq<int>, p: nat, bound: nat)
    requires 0 < p && p * bound <= I64_MAX && Bounded(h, bound)
    ensures Mean(RunningSum(h, p, I64_MAX), Min(|h|, p)) == Mean(SumOf(Window(h, p)), |Window(h, p)|)
  {
    RunningSumExact(h, p, I64_MAX, bound);
  }

  ghost predicate MeanAlwaysExact(p: nat, bound: nat)
    requires p > 0
  {
    forall h: seq<int> :: Bounded(h, bound) ==>
      Mean(RunningSum(h, p, I64_MAX), Min(|h|, p)) == Mean(SumOf(Window(h, p)), |Window(h, p)|)
  }

  /** The mean is the recomputed one for all prices up to `bound` if and only if a full window of them fits an i64. */
  lemma MeanExactIff(p: nat, bound: nat)
    requires p > 0
    ensures MeanAlwaysExact(p, bound) <==> p * bound <= I64_MAX
  {
    if p * bound <= I64_MAX {
      forall h: seq<int> | Bounded(h, bound)
        ensures Mean(RunningSum(h, p, I64_MAX), Min(|h|, p)) == Mean(SumOf(Window(h, p)), |Window(h, p)|)
      {
        MeanOfWindow(h, p, bound);
      }
    } else {
      var h := Constant(bound, p);
      FullWindow(p, I64_MAX, bound);
      SaturatedMean(RunningSum(h, p, I64_MAX), p, bound);
      assert Bounded(h, bound);
    }
  }

  lemma SaturatedMean(sum: int, p: nat, bound: nat)
    requires p > 0 && sum <= I64_MAX < p * bound
    ensures Mean(sum, p) < bound == Mean(p * bound, p)
  {
    DivUnique(p * bound, p, bound, 0);
    if sum >= 0 {
      DivBounds(sum, p);
      MulOrder(bound, sum / p, p);
    } else {
      DivBounds(0 - sum, p);
      MulOrder(sum, 0, 1);
    }
  }

  /** Outside that range the sum saturates: two maximal prices average to half of either. */
  lemma SaturationHalvesMean()
    ensures Mean(RunningSum([I64_MAX, I64_MAX], 2, I64_MAX), 2) == I64_MAX / 2
    ensures Mean(SumOf(Window([I64_MAX, I64_MAX], 2)), 2) == I64_MAX
  {
    var h := [I64_MAX, I64_MAX];
    assert h[..1] == [I64_MAX] && [I64_MAX][..0] == [] && Window(h, 2) == h;
    assert RunningSum([I64_MAX], 2, I64_MAX) == I64_MAX && SumOf([I64_MAX]) == I64_MAX;
  }

  class StreamingSma {
    const buffer: array<int>
    const period: nat
    var sum: int
    var idx: nat
    var count: nat
    ghost var history: seq<int>   // since the last reset

    ghost predicate Valid()
      reads this, buffer
    {
      && 0 < period <= MAX_WINDOW == buffer.Length
      && idx == |history| && count == Min(|history|, period)
      && Buffered(buffer[..], history, period)
      && sum == RunningSum(history, period, I64_MAX)
    }

    constructor (period: nat)
      requires 0 < period <= MAX_WINDOW
      ensures Valid() && fresh(buffer) && history == [] && this.period == period
    {
      buffer := new int[MAX_WINDOW](_ => 0);
      this.period := period;
      sum, idx, count, history := 0, 0, 0, [];
    }

    method Update(price: int) returns (result: int)
      requires Valid()
      modifies this`sum, this`idx, this`count, this`history, buffer
      ensures Valid() && history == old(history) + [price]
      ensures result == Mean(sum, count)
      ensures Bounded(history, PriceLimit(period)) ==>
        result == Mean(SumOf(Window(history, period)), |Window(history, period)|)
    {
      Push(price);
      if Bounded(history, PriceLimit(period)) {
        MeanOfWindow(history, period, PriceLimit(period));
      }
      result := if count > 0 then TruncDiv(sum, count) else 0;
    }

    method Push(price: int)
      requires Valid()
      modifies this`sum, this`idx, this`count, this`history, buffer
      ensures Valid() && history == old(history) + [price]
    {
      ghost var h := history;
      RunningSumSnoc(h, price, period, I64_MAX);
      BufferPush(buffer[..], h, period, price);
      var i := Slot(idx, period);
      if count >= period {
        OldestInSlot(buffer[..], h, period);
        var oldest := buffer[i];
        sum := Clamp(sum - oldest, I64_MAX);
      } else {
        count := count + 1;
      }
      buffer[i] := price;
      sum := Clamp(sum + price, I64_MAX);
      idx := idx + 1;
      history := h + [price];
    }

    method Get() returns (result: int)
      requires Valid()
      ensures result == Mean(RunningSum(history, period, I64_MAX), Min(|history|, period))
    {
      result := if count > 0 then TruncDiv(sum, count) else 0;
    }

    method Reset()
      requires Valid()
      modifies this`sum, this`idx, this`count, this`history, buffer
      ensures Valid() && history == []
    {
      sum, count, idx, history := 0, 0, 0, [];
      for i := 0 to buffer.Length
        modifies buffer
        invariant forall j :: 0 <= j < i ==> buffer[j] == 0
      {
        buffer[i] := 0;
      }
    }
  }
}
