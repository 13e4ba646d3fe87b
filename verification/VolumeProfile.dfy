/**
 The volume-at-price histogram: bins updated in place by each trade, a running point of
 control, and the value area grown greedily around it.
 */
module VolumeProfile {
  import opened Machine

  // ---------------------------------------------------------------- prices and bins

  /** How prices map to bins. */
  datatype Grid = Grid(base: int, tick: int, bins: nat)

  function PriceToBin(g: Grid, price: int): (r: Option<nat>)
    requires g.tick != 0
    ensures r.Some? ==> r.value < g.bins
  {
    var idx := TruncDiv(price - g.base, g.tick) + g.bins / 2;
    if 0 <= idx < g.bins then Some(idx) else None
  }

  function BinToPrice(g: Grid, i: nat): int {
    g.base + (i - g.bins / 2) * g.tick
  }

  lemma TruncDivUnique(a: int, d: int, q: int, r: int)
    requires d > 0 && a == q * d + r
    requires if a >= 0 then 0 <= r < d else -d < r <= 0
    ensures TruncDiv(a, d) == q
  {
    if a >= 0 {
      DivUnique(a, d, q, r);
    } else {
      DivUnique(-a, d, -q, -r);
    }
  }

  /** The price that stands for a bin maps back to that bin. */
  lemma BinRoundTrip(g: Grid, i: nat)
    requires g.tick > 0 && i < g.bins
    ensures PriceToBin(g, BinToPrice(g, i)) == Some(i)
  {
    TruncDivUnique((i - g.bins / 2) * g.tick, g.tick, i - g.bins / 2, 0);
  }

  /**
   Truncation toward zero decides which prices a bin collects: one tick above the base
   for bins over the center, one tick below for bins under it, and both for the center.
   */
  lemma BinCollects(g: Grid, price: int, i: nat)
    requires g.tick > 0 && i < g.bins
    ensures PriceToBin(g, price) == Some(i) <==>
      var at, center := BinToPrice(g, i), g.bins / 2;
      && (i >= center ==> price < at + g.tick) && (i > center ==> at <= price)
      && (i <= center ==> at - g.tick < price) && (i < center ==> price <= at)
  {
    TruncEqualsIff(price - g.base, g.tick, i - g.bins / 2);
  }

  lemma TruncEqualsIff(a: int, d: int, k: int)
    requires d > 0
    ensures TruncDiv(a, d) == k <==>
      && (k >= 0 ==> a < k * d + d) && (k > 0 ==> k * d <= a)
      && (k <= 0 ==> k * d - d < a) && (k < 0 ==> a <= k * d)
  {
    if k > 0 {
      MulMonotone(1, k, d);
    } else if k < 0 {
      MulMonotone(k, -1, d);
    }
    var q := TruncDiv(a, d);
    if q == k {
      TruncRemainder(a, d);
    } else if (k >= 0 ==> a < k * d + d) && (k > 0 ==> k * d <= a) && (k <= 0 ==> k * d - d < a) && (k < 0 ==> a <= k * d) {
      TruncDivUnique(a, d, k, a - k * d);
    }
  }

  lemma TruncRemainder(a: int, d: int)
    requires d > 0
    ensures var r := a - TruncDiv(a, d) * d; if a >= 0 then 0 <= r < d else -d < r <= 0
  {
    DivBounds(if a >= 0 then a else -a, d);
  }

  /** A binned price lies within one tick of the price that stands for its bin. */
  lemma PriceWithinTick(g: Grid, price: int)
    requires g.tick > 0 && PriceToBin(g, price).Some?
    ensures -g.tick < price - BinToPrice(g, PriceToBin(g, price).value) < g.tick
  {
    BinCollects(g, price, PriceToBin(g, price).value);
  }

  // ---------------------------------------------------------------- recomputation

  /** A trade and the bin it falls in, if any. */
  datatype Trade = Trade(price: int, bin: Option<nat>, volume: nat, isAsk: bool)

  ghost predicate Placed(g: Grid, trades: seq<Trade>)
    requires g.tick != 0
  {
    forall k :: 0 <= k < |trades| ==> trades[k].bin == PriceToBin(g, trades[k].price)
  }

  datatype VolumeBin = VolumeBin(total: nat, bid: nat, ask: nat, count: nat, buy: nat, sell: nat) {
    function Add(volume: nat, isAsk: bool): VolumeBin {
      var b := this.(total := total + volume, count := count + 1);
      if isAsk then b.(ask := ask + volume, buy := buy + volume)
      else b.(bid := bid + volume, sell := sell + volume)
    }
  }

  const EMPTY_BIN := VolumeBin(0, 0, 0, 0, 0, 0)

  /** Volume of the trades that fall in bin `i`; `asks` and `bids` select the sides counted. */
  function VolumeIn(trades: seq<Trade>, i: nat, asks: bool, bids: bool): nat
  {
    if trades == [] then 0
    else
      var t := trades[|trades| - 1];
      VolumeIn(trades[..|trades| - 1], i, asks, bids)
      + (if t.bin == Some(i) && (if t.isAsk then asks else bids) then t.volume else 0)
  }

  function TradesIn(trades: seq<Trade>, i: nat): nat
  {
    if trades == [] then 0
    else TradesIn(trades[..|trades| - 1], i) + (if trades[|trades| - 1].bin == Some(i) then 1 else 0)
  }

  /** A bin recomputed from the whole trade history. */
  function BinOf(trades: seq<Trade>, i: nat): VolumeBin
  {
    var ask, bid := VolumeIn(trades, i, true, false), VolumeIn(trades, i, false, true);
    VolumeBin(VolumeIn(trades, i, true, true), bid, ask, TradesIn(trades, i), ask, bid)
  }

  lemma BinOfSnoc(trades: seq<Trade>, t: Trade, i: nat)
    ensures BinOf(trades + [t], i) ==
      if t.bin == Some(i) then BinOf(trades, i).Add(t.volume, t.isAsk) else BinOf(trades, i)
  {
    assert (trades + [t])[..|trades|] == trades;
  }

  /** Every bin's volume is its bid volume plus its ask volume. */
  lemma {:induction false} TotalIsBidPlusAsk(trades: seq<Trade>, i: nat)
    ensures BinOf(trades, i).total == BinOf(trades, i).bid + BinOf(trades, i).ask
  {
    if trades != [] {
      TotalIsBidPlusAsk(trades[..|trades| - 1], i);
    }
  }

  /** Session extremes over all trades, in or out of range; the sentinels are i64's. */
  function High(trades: seq<Trade>): int {
    if trades == [] then I64_MIN else Max(High(trades[..|trades| - 1]), trades[|trades| - 1].price)
  }

  function Low(trades: seq<Trade>): int {
    if trades == [] then I64_MAX else Min(Low(trades[..|trades| - 1]), trades[|trades| - 1].price)
  }

  /** How many trades had a bin. */
  function InRange(trades: seq<Trade>): nat
  {
    if trades == [] then 0
    else InRange(trades[..|trades| - 1]) + (if trades[|trades| - 1].bin.Some? then 1 else 0)
  }

  /** Total volume of bins `l..r`. */
  function Sum(v: seq<nat>, l: nat, r: nat): nat
    requires l <= r <= |v|
    decreases r - l
  {
    if l == r then 0 else Sum(v, l, r - 1) + v[r - 1]
  }

  lemma {:induction false} SumLeft(v: seq<nat>, l: nat, r: nat)
    requires l < r <= |v|
    ensures Sum(v, l, r) == v[l] + Sum(v, l + 1, r)
    decreases r - l
  {
    if l < r - 1 {
      SumLeft(v, l, r - 1);
    }
  }

  lemma {:induction false} SumUpdate(v: seq<nat>, l: nat, r: nat, i: nat, x: nat)
    requires l <= i < r <= |v|
    ensures Sum(v[i := x], l, r) + v[i] == Sum(v, l, r) + x
    decreases r - l
  {
    if i < r - 1 {
      SumUpdate(v, l, r - 1, i, x);
    } else {
      SumSame(v, v[i := x], l, i);
    }
  }

  lemma {:induction false} SumSame(v: seq<nat>, u: seq<nat>, l: nat, r: nat)
    requires |v| == |u| && l <= r <= |v| && forall i :: l <= i < r ==> v[i] == u[i]
    ensures Sum(v, l, r) == Sum(u, l, r)
    decreases r - l
  {
    if l < r {
      SumSame(v, u, l, r - 1);
    }
  }

  lemma {:induction false} SumMonotone(v: seq<nat>, l: nat, r: nat, l': nat, r': nat)
    requires l' <= l <= r <= r' <= |v|
    ensures Sum(v, l, r) <= Sum(v, l', r')
    decreases r' - l'
  {
    if r < r' {
      SumMonotone(v, l, r, l', r' - 1);
    } else if l' < l {
      SumLeft(v, l', r');
      SumMonotone(v, l, r, l' + 1, r');
    }
  }

  lemma {:induction false} SumZeroIff(v: seq<nat>, l: nat, r: nat)
    requires l <= r <= |v|
    ensures Sum(v, l, r) == 0 <==> forall i :: l <= i < r ==> v[i] == 0
    decreases r - l
  {
    if l < r {
      SumZeroIff(v, l, r - 1);
    }
  }

  // ---------------------------------------------------------------- the value area

  /** The interval grown from `[l, r]`: always toward the heavier neighbour, left on ties. */
  function Expand(v: seq<nat>, l: nat, r: nat, target: nat): (e: (nat, nat))
    requires l <= r < |v|
    ensures e.0 <= l && r <= e.1 < |v|
    decreases |v| - (r - l)
  {
    if Sum(v, l, r + 1) >= target then (l, r)
    else
      var left := if l > 0 then v[l - 1] else 0;
      var right := if r < |v| - 1 then v[r + 1] else 0;
      if left >= right && l > 0 then Expand(v, l - 1, r, target)
      else if r < |v| - 1 then Expand(v, l, r + 1, target)
      else (l, r)
  }

  /** The growth reaches its target or stops only at the whole histogram. */
  lemma {:induction false} ExpandReaches(v: seq<nat>, l: nat, r: nat, target: nat)
    requires l <= r < |v|
    ensures var (l', r') := Expand(v, l, r, target);
      && (Sum(v, l', r' + 1) >= target || (l' == 0 && r' == |v| - 1))
      && (Sum(v, l', r' + 1) >= target <==> Sum(v, 0, |v|) >= target)
    decreases |v| - (r - l)
  {
    if Sum(v, l, r + 1) >= target {
      SumMonotone(v, l, r + 1, 0, |v|);
    } else {
      var left := if l > 0 then v[l - 1] else 0;
      var right := if r < |v| - 1 then v[r + 1] else 0;
      if left >= right && l > 0 {
        ExpandReaches(v, l - 1, r, target);
      } else if r < |v| - 1 {
        ExpandReaches(v, l, r + 1, target);
      }
    }
  }

  /** One step minimal: without the bin added last, the volume was below the target. */
  lemma {:induction false} ExpandMinimal(v: seq<nat>, l: nat, r: nat, target: nat)
    requires l <= r < |v|
    ensures var (l', r') := Expand(v, l, r, target);
      || (l', r') == (l, r)
      || (l' < l && Sum(v, l' + 1, r' + 1) < target)
      || (r < r' && Sum(v, l', r') < target)
    decreases |v| - (r - l)
  {
    if Sum(v, l, r + 1) < target {
      var left := if l > 0 then v[l - 1] else 0;
      var right := if r < |v| - 1 then v[r + 1] else 0;
      if left >= right && l > 0 {
        ExpandMinimal(v, l - 1, r, target);
      } else if r < |v| - 1 {
        ExpandMinimal(v, l, r + 1, target);
      }
    }
  }

  /** A larger target never yields a narrower area. */
  lemma {:induction false} ExpandMonotone(v: seq<nat>, l: nat, r: nat, small: nat, large: nat)
    requires l <= r < |v| && small <= large
    ensures Expand(v, l, r, large).0 <= Expand(v, l, r, small).0
    ensures Expand(v, l, r, small).1 <= Expand(v, l, r, large).1
    decreases |v| - (r - l)
  {
    if Sum(v, l, r + 1) < small {
      var left := if l > 0 then v[l - 1] else 0;
      var right := if r < |v| - 1 then v[r + 1] else 0;
      if left >= right && l > 0 {
        ExpandMonotone(v, l - 1, r, small, large);
      } else if r < |v| - 1 {
        ExpandMonotone(v, l, r + 1, small, large);
      }
    }
  }

  /** Volumes fall away on both sides of bin `top`. */
  ghost predicate Unimodal(v: seq<nat>, top: nat) {
    && top < |v|
    && (forall i, j :: 0 <= i <= j <= top ==> v[i] <= v[j])
    && (forall i, j :: top <= i <= j < |v| ==> v[j] <= v[i])
  }

  /** On a single-peaked histogram the area holds the heaviest bins: none outside beats one inside. */
  lemma {:induction false} ExpandTakesHeaviest(v: seq<nat>, l: nat, r: nat, top: nat, target: nat)
    requires l <= top <= r < |v| && Unimodal(v, top)
    requires forall i, o :: l <= i <= r && 0 <= o < |v| && (o < l || r < o) ==> v[o] <= v[i]
    ensures var (l', r') := Expand(v, l, r, target);
      forall i, o :: l' <= i <= r' && 0 <= o < |v| && (o < l' || r' < o) ==> v[o] <= v[i]
    decreases |v| - (r - l)
  {
    if Sum(v, l, r + 1) < target {
      var left := if l > 0 then v[l - 1] else 0;
      var right := if r < |v| - 1 then v[r + 1] else 0;
      if left >= right && l > 0 {
        ExpandTakesHeaviest(v, l - 1, r, top, target);
      } else if r < |v| - 1 {
        ExpandTakesHeaviest(v, l, r + 1, top, target);
      }
    }
  }

  /** When one more bin is enough it is the heavier neighbour, the left one on a tie. */
  lemma ExpandByOne(v: seq<nat>, l: nat, r: nat, target: nat)
    requires l <= r < |v| && Sum(v, l, r + 1) < target
    ensures l > 0 && (r + 1 == |v| || v[r + 1] <= v[l - 1]) && Sum(v, l - 1, r + 1) >= target ==>
      Expand(v, l, r, target) == (l - 1, r)
    ensures r + 1 < |v| && (l == 0 || v[l - 1] < v[r + 1]) && Sum(v, l, r + 2) >= target ==>
      Expand(v, l, r, target) == (l, r + 1)
  {
  }

  /** Growing to a larger target goes on from where a smaller one stopped. */
  lemma {:induction false} ExpandResumes(v: seq<nat>, l: nat, r: nat, small: nat, large: nat)
    requires l <= r < |v| && small <= large
    ensures var (l', r') := Expand(v, l, r, small); Expand(v, l', r', large) == Expand(v, l, r, large)
    decreases |v| - (r - l)
  {
    if Sum(v, l, r + 1) < small {
      var left := if l > 0 then v[l - 1] else 0;
      var right := if r < |v| - 1 then v[r + 1] else 0;
      if left >= right && l > 0 {
        ExpandResumes(v, l - 1, r, small, large);
      } else if r < |v| - 1 {
        ExpandResumes(v, l, r + 1, small, large);
      }
    }
  }

  /** `[l, r]` is a sound value area of `v` around `poc`. */
  ghost predicate IsValueArea(v: seq<nat>, poc: nat, target: nat, l: nat, r: nat) {
    && l <= poc <= r < |v|
    && (Sum(v, l, r + 1) >= target <==> target <= Sum(v, 0, |v|))
    && (Sum(v, l, r + 1) < target ==> l == 0 && r == |v| - 1)
    && (l < r ==> (l < poc && Sum(v, l + 1, r + 1) < target) || (poc < r && Sum(v, l, r) < target))
    && (Unimodal(v, poc) ==> forall i, o :: l <= i <= r && 0 <= o < |v| && (o < l || r < o) ==> v[o] <= v[i])
  }

  /**
   The area grown from any bin surrounds it, reaches its target exactly when the whole
   histogram does (and is the whole histogram otherwise), is one step minimal, and on a
   single-peaked histogram leaves out no bin heavier than one it has.
   */
  lemma ExpandIsValueArea(v: seq<nat>, poc: nat, target: nat)
    requires poc < |v|
    ensures IsValueArea(v, poc, target, Expand(v, poc, poc, target).0, Expand(v, poc, poc, target).1)
  {
    ExpandReaches(v, poc, poc, target);
    ExpandMinimal(v, poc, poc, target);
    if Unimodal(v, poc) {
      ExpandTakesHeaviest(v, poc, poc, poc, target);
    }
  }

  // ---------------------------------------------------------------- the histogram in place

  datatype ValueArea = ValueArea(pocPrice: int, pocVolume: nat, highPrice: int, lowPrice: int, total: nat)

  function Totals(bins: seq<VolumeBin>): (v: seq<nat>)
    ensures |v| == |bins| && forall i :: 0 <= i < |bins| ==> v[i] == bins[i].total
  {
    if bins == [] then [] else Totals(bins[..|bins| - 1]) + [bins[|bins| - 1].total]
  }

  /** The bins are what the trade history says they are. */
  ghost predicate BinsMatch(bins: seq<VolumeBin>, trades: seq<Trade>)
  {
    forall i :: 0 <= i < |bins| ==> bins[i] == BinOf(trades, i)
  }

  /** The bins after one trade. */
  function AddTrade(bins: seq<VolumeBin>, t: Trade): seq<VolumeBin>
    requires t.bin.Some? ==> t.bin.value < |bins|
  {
    match t.bin
    case None => bins
    case Some(i) => bins[i := bins[i].Add(t.volume, t.isAsk)]
  }

  lemma AddTradeMatches(bins: seq<VolumeBin>, trades: seq<Trade>, t: Trade)
    requires (t.bin.Some? ==> t.bin.value < |bins|) && BinsMatch(bins, trades)
    ensures BinsMatch(AddTrade(bins, t), trades + [t])
  {
    forall i | 0 <= i < |bins|
      ensures AddTrade(bins, t)[i] == BinOf(trades + [t], i)
    {
      BinOfSnoc(trades, t, i);
    }
  }

  lemma AddTradeSums(bins: seq<VolumeBin>, t: Trade)
    requires t.bin.Some? ==> t.bin.value < |bins|
    ensures Sum(Totals(AddTrade(bins, t)), 0, |bins|)
      == Sum(Totals(bins), 0, |bins|) + if t.bin.Some? then t.volume else 0
  {
    if t.bin.Some? {
      var i := t.bin.value;
      var b := bins[i].Add(t.volume, t.isAsk);
      assert b.total == bins[i].total + t.volume;
      TotalsUpdate(bins, i, b);
      SumUpdate(Totals(bins), 0, |bins|, i, b.total);
      assert AddTrade(bins, t) == bins[i := b];
    }
  }

  lemma TotalsUpdate(bins: seq<VolumeBin>, i: nat, b: VolumeBin)
    requires i < |bins|
    ensures Totals(bins[i := b]) == Totals(bins)[i := b.total]
  {
  }

  /** Bin `poc` has the maximum volume. */
  ghost predicate IsPeak(bins: seq<VolumeBin>, poc: nat) {
    poc < |bins| && forall i :: 0 <= i < |bins| ==> bins[i].total <= bins[poc].total
  }

  // ---------------------------------------------------------------- the histogram over a session

  datatype Histogram = Histogram(bins: seq<VolumeBin>, total: nat, count: nat, poc: nat, high: int, low: int)

  function EmptyHistogram(n: nat): Histogram {
    Histogram(seq(n, _ => EMPTY_BIN), 0, 0, n / 2, I64_MIN, I64_MAX)
  }

  predicate Fits(t: Trade, n: nat) {
    t.bin.Some? ==> t.bin.value < n
  }

  /** `record_trade`: the running totals, and the point of control moved only to a heavier bin. */
  function Record(h: Histogram, t: Trade): Histogram
    requires Fits(t, |h.bins|) && h.poc < |h.bins|
  {
    var g := h.(high := Max(h.high, t.price), low := Min(h.low, t.price));
    match t.bin
    case None => g
    case Some(i) =>
      var bins := AddTrade(h.bins, t);
      g.(bins := bins, total := h.total + t.volume, count := h.count + 1,
         poc := if bins[i].total > bins[h.poc].total then i else h.poc)
  }

  /** The histogram after all trades of a session. */
  function Replay(n: nat, trades: seq<Trade>): (h: Histogram)
    requires n > 0 && forall k :: 0 <= k < |trades| ==> Fits(trades[k], n)
    ensures |h.bins| == n && h.poc < n
  {
    if trades == [] then EmptyHistogram(n) else Record(Replay(n, trades[..|trades| - 1]), trades[|trades| - 1])
  }

  lemma ReplaySnoc(n: nat, trades: seq<Trade>, t: Trade)
    requires n > 0 && Fits(t, n) && forall k :: 0 <= k < |trades| ==> Fits(trades[k], n)
    ensures forall k :: 0 <= k < |trades| + 1 ==> Fits((trades + [t])[k], n)
    ensures Replay(n, trades + [t]) == Record(Replay(n, trades), t)
  {
    assert (trades + [t])[..|trades|] == trades;
  }

  /**
   The point of control starts in the middle and moves exactly when a trade makes its bin
   strictly heavier than the present one: on a tie the bin that got there first keeps it.
   */
  lemma PocMovesIff(h: Histogram, t: Trade)
    requires Fits(t, |h.bins|) && h.poc < |h.bins|
    ensures var g := Record(h, t);
      && g.poc < |g.bins| == |h.bins|
      && (g.poc != h.poc <==> t.bin.Some? && t.bin.value != h.poc && g.bins[t.bin.value].total > g.bins[h.poc].total)
      && (g.poc != h.poc ==> t.bin == Some(g.poc))
    ensures EmptyHistogram(|h.bins|).poc == |h.bins| / 2
  {
  }

  lemma EmptyFacts(n: nat)
    requires n > 0
    ensures var h := EmptyHistogram(n);
      BinsMatch(h.bins, []) && IsPeak(h.bins, h.poc) && h.total == Sum(Totals(h.bins), 0, n)
  {
    SumZeroIff(Totals(EmptyHistogram(n).bins), 0, n);
  }

  lemma RecordKeepsPeak(h: Histogram, t: Trade)
    requires Fits(t, |h.bins|) && IsPeak(h.bins, h.poc)
    ensures IsPeak(Record(h, t).bins, Record(h, t).poc)
  {
  }

  /**
   At every moment of every session the incrementally kept histogram is the one recomputed
   from the trades: each bin, the totals and extremes; and the point of control is a bin
   of maximum volume.
   */
  lemma {:induction false} ReplayFacts(n: nat, trades: seq<Trade>)
    requires n > 0 && forall k :: 0 <= k < |trades| ==> Fits(trades[k], n)
    ensures var h := Replay(n, trades);
      && BinsMatch(h.bins, trades) && IsPeak(h.bins, h.poc)
      && h.total == Sum(Totals(h.bins), 0, n) && h.count == InRange(trades)
      && h.high == High(trades) && h.low == Low(trades)
  {
    if trades == [] {
      EmptyFacts(n);
    } else {
      var shorter, t := trades[..|trades| - 1], trades[|trades| - 1];
      ReplayFacts(n, shorter);
      var h := Replay(n, shorter);
      assert shorter + [t] == trades;
      AddTradeMatches(h.bins, shorter, t);
      AddTradeSums(h.bins, t);
      RecordKeepsPeak(h, t);
    }
  }

  class Profile {
    const bins: array<VolumeBin>
    var basePriceTick: int
    var tickSize: int
    var totalVolume: nat
    var totalTrades: nat
    var pocIndex: nat
    var sessionHigh: int
    var sessionLow: int
    ghost var trades: seq<Trade>   // since the last reset

    ghost function GridOf(): Grid
      reads this
    {
      Grid(basePriceTick, tickSize, bins.Length)
    }

    ghost function View(): Histogram
      reads this, bins
    {
      Histogram(bins[..], totalVolume, totalTrades, pocIndex, sessionHigh, sessionLow)
    }

    ghost predicate Valid()
      reads this, bins
    {
      && tickSize != 0 && bins.Length > 0
      && (forall k :: 0 <= k < |trades| ==> Fits(trades[k], bins.Length))
      && Placed(GridOf(), trades)
      && View() == Replay(bins.Length, trades)
    }

    constructor (numBins: nat, basePriceTick: int, tickSize: int)
      requires numBins > 0 && tickSize != 0
      ensures Valid() && fresh(bins) && trades == [] && GridOf() == Grid(basePriceTick, tickSize, numBins)
    {
      bins := new VolumeBin[numBins](_ => EMPTY_BIN);
      this.basePriceTick, this.tickSize := basePriceTick, tickSize;
      totalVolume, totalTrades, pocIndex := 0, 0, numBins / 2;
      sessionHigh, sessionLow := I64_MIN, I64_MAX;
      trades := [];
      new;
      assert bins[..] == EmptyHistogram(numBins).bins;
    }

    method RecordTrade(price: int, volume: nat, isAsk: bool) returns (inRange: bool)
      requires Valid()
      modifies this`totalVolume, this`totalTrades, this`pocIndex, this`sessionHigh, this`sessionLow, this`trades, bins
      ensures Valid() && trades == old(trades) + [Trade(price, PriceToBin(GridOf(), price), volume, isAsk)]
      ensures inRange <==> PriceToBin(GridOf(), price).Some?
    {
      var bin := PriceToBin(Grid(basePriceTick, tickSize, bins.Length), price);
      ghost var t := Trade(price, bin, volume, isAsk);
      ReplaySnoc(bins.Length, trades, t);
      UpdateBins(price, bin, volume, isAsk);
      trades := trades + [t];
      inRange := bin.Some?;
    }

    method UpdateBins(price: int, bin: Option<nat>, volume: nat, isAsk: bool)
      requires pocIndex < bins.Length && (bin.Some? ==> bin.value < bins.Length)
      modifies this`totalVolume, this`totalTrades, this`pocIndex, this`sessionHigh, this`sessionLow, bins
      ensures View() == Record(old(View()), Trade(price, bin, volume, isAsk))
    {
      UpdateExtremes(price);
      if bin.Some? {
        AddToBin(bin.value, volume, isAsk);
        UpdatePoc(bin.value);
      }
    }

    method UpdateExtremes(price: int)
      modifies this`sessionHigh, this`sessionLow
      ensures sessionHigh == Max(old(sessionHigh), price) && sessionLow == Min(old(sessionLow), price)
    {
      var high, low := sessionHigh, sessionLow;
      sessionHigh := if price > high then price else high;
      sessionLow := if price < low then price else low;
    }

    method AddToBin(idx: nat, volume: nat, isAsk: bool)
      requires idx < bins.Length
      modifies bins, this`totalVolume, this`totalTrades
      ensures bins[..] == old(bins[..])[idx := old(bins[idx]).Add(volume, isAsk)]
      ensures totalVolume == old(totalVolume) + volume && totalTrades == old(totalTrades) + 1
    {
      bins[idx] := bins[idx].Add(volume, isAsk);
      totalVolume := totalVolume + volume;
      totalTrades := totalTrades + 1;
    }

    method UpdatePoc(candidate: nat)
      requires candidate < bins.Length && pocIndex < bins.Length
      modifies this`pocIndex
      ensures pocIndex == if bins[candidate].total > bins[old(pocIndex)].total then candidate else old(pocIndex)
    {
      var candidateVol, currentVol := bins[candidate].total, bins[pocIndex].total;
      if candidateVol > currentVol {
        pocIndex := candidate;
      }
    }

    /** `target` stands for the float product `total_volume * pct`, truncated. */
    method CalculateValueArea(target: nat) returns (area: ValueArea, ghost l: nat, ghost r: nat)
      requires Valid()
      ensures totalVolume == 0 ==> area == ValueArea(0, 0, 0, 0, 0)
      ensures totalVolume > 0 ==>
        && (l, r) == Expand(Totals(bins[..]), pocIndex, pocIndex, target)
        && IsValueArea(Totals(bins[..]), pocIndex, target, l, r)
        && area == ValueArea(BinToPrice(GridOf(), pocIndex), bins[pocIndex].total,
                             BinToPrice(GridOf(), r), BinToPrice(GridOf(), l), totalVolume)
    {
      l, r := pocIndex, pocIndex;
      if totalVolume == 0 {
        return ValueArea(0, 0, 0, 0, 0), l, r;
      }
      var g := Grid(basePriceTick, tickSize, bins.Length);
      var leftIdx, rightIdx := GrowArea(target);
      ExpandIsValueArea(Totals(bins[..]), pocIndex, target);
      l, r := leftIdx, rightIdx;
      area := ValueArea(BinToPrice(g, pocIndex), bins[pocIndex].total, BinToPrice(g, rightIdx), BinToPrice(g, leftIdx), totalVolume);
    }

    method GrowArea(target: nat) returns (leftIdx: nat, rightIdx: nat)
      requires pocIndex < bins.Length
      ensures (leftIdx, rightIdx) == Expand(Totals(bins[..]), pocIndex, pocIndex, target)
    {
      ghost var v := Totals(bins[..]);
      var accumulated := bins[pocIndex].total;
      leftIdx, rightIdx := pocIndex, pocIndex;
      while accumulated < target
        invariant leftIdx <= rightIdx < bins.Length
        invariant accumulated == Sum(v, leftIdx, rightIdx + 1)
        invariant Expand(v, leftIdx, rightIdx, target) == Expand(v, pocIndex, pocIndex, target)
        decreases bins.Length - (rightIdx - leftIdx)
      {
        var leftVol := if leftIdx > 0 then bins[leftIdx - 1].total else 0;
        var rightVol := if rightIdx < bins.Length - 1 then bins[rightIdx + 1].total else 0;
        if leftVol >= rightVol && leftIdx > 0 {
          SumLeft(v, leftIdx - 1, rightIdx + 1);
          leftIdx := leftIdx - 1;
          accumulated := accumulated + bins[leftIdx].total;
        } else if rightIdx < bins.Length - 1 {
          rightIdx := rightIdx + 1;
          accumulated := accumulated + bins[rightIdx].total;
        } else {
          break;
        }
      }
    }

    /** Some bin of maximum volume, with its price; None exactly when nothing was traded. */
    method GetPoc() returns (r: Option<(int, nat)>)
      requires Valid()
      ensures r.None? <==> totalVolume == 0
      ensures r.Some? ==> pocIndex < bins.Length && r.value == (BinToPrice(GridOf(), pocIndex), bins[pocIndex].total)
      ensures r.Some? ==> forall j :: 0 <= j < bins.Length ==> bins[j].total <= r.value.1
    {
      ReplayFacts(bins.Length, trades);
      SumZeroIff(Totals(bins[..]), 0, bins.Length);
      assert forall j :: 0 <= j < bins.Length ==> bins[j] == bins[..][j];
      if bins[pocIndex].total == 0 {
        return None;
      }
      r := Some((BinToPrice(Grid(basePriceTick, tickSize, bins.Length), pocIndex), bins[pocIndex].total));
    }

    method Reset()
      requires Valid()
      modifies this`totalVolume, this`totalTrades, this`pocIndex, this`sessionHigh, this`sessionLow, this`trades, bins
      ensures Valid() && trades == []
    {
      for i := 0 to bins.Length
        invariant forall j :: 0 <= j < i ==> bins[j] == EMPTY_BIN
      {
        bins[i] := EMPTY_BIN;
      }
      totalVolume, totalTrades, pocIndex := 0, 0, bins.Length / 2;
      sessionHigh, sessionLow := I64_MIN, I64_MAX;
      trades := [];
      assert bins[..] == EmptyHistogram(bins.Length).bins;
    }
  }
}
