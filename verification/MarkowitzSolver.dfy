/** The portfolio optimizer: covariance shrinkage and inverse-variance weights. */
module MarkowitzSolver {
  import opened Machine

  // The covariance matrix is a flattened upper triangle; the weights sum to the fixed-point scale.

  const MAX_ASSETS: nat := 64
  const CELLS: nat := MAX_ASSETS * MAX_ASSETS / 2

  // ---------------------------------------------------------------- the flattened index

  /** `i * (MAX_ASSETS - 1) - i * (i + 1) / 2 + (j - i)` after ordering the pair. */
  function CovIndex(i: nat, j: nat): int {
    var lo, hi := Min(i, j), Max(i, j);
    lo * (MAX_ASSETS - 1) - lo * (lo + 1) / 2 + (hi - lo)
  }

  function RowStart(i: nat): int {
    i * (MAX_ASSETS - 1) - i * (i + 1) / 2
  }

  lemma RowStep(i: nat)
    ensures RowStart(i + 1) == RowStart(i) + MAX_ASSETS - 2 - i
  {
    assert (i + 1) * (i + 2) == i * (i + 1) + 2 * (i + 1);
  }

  lemma {:induction false} RowsApart(i: nat, k: nat)
    requires i < k < MAX_ASSETS
    ensures RowStart(i) + MAX_ASSETS - 2 - i <= RowStart(k)
    decreases k
  {
    RowStep(k - 1);
    if i < k - 1 {
      RowsApart(i, k - 1);
    }
  }

  lemma RowInBounds(i: nat)
    requires i < MAX_ASSETS
    ensures 0 <= RowStart(i) && RowStart(i) + (MAX_ASSETS - 1 - i) < CELLS
  {
    var sq := i * (i + 1);
    SquareAround(i);
    MulMonotone(i + 1, MAX_ASSETS, i);
  }

  lemma SquareAround(i: int)
    ensures i * 126 - i * (i + 1) <= 3906
  {
    assert (125 - 2 * i) * (125 - 2 * i) >= 0;
    assert (125 - 2 * i) * (125 - 2 * i) == 15625 - 4 * (i * 126 - i * (i + 1));
  }

  /** Every pair of assets has a cell inside the array. */
  lemma IndexInBounds(i: nat, j: nat)
    requires i < MAX_ASSETS && j < MAX_ASSETS
    ensures 0 <= CovIndex(i, j) < CELLS && CovIndex(i, j) == CovIndex(j, i)
  {
    RowInBounds(Min(i, j));
  }

  /** No two ordered pairs among `n` assets share a cell. */
  ghost predicate Injective(n: nat) {
    forall i, j, k, l :: 0 <= i <= j < n && 0 <= k <= l < n && CovIndex(i, j) == CovIndex(k, l) ==> i == k && j == l
  }

  lemma PairsDiffer(n: nat, i: nat, j: nat, k: nat, l: nat)
    requires n <= MAX_ASSETS - 2 && i <= j < n && k <= l < n && CovIndex(i, j) == CovIndex(k, l)
    ensures i == k && j == l
  {
    if i < k {
      RowsApart(i, k);
    } else if k < i {
      RowsApart(k, i);
    }
  }

  /** The flattening is a faithful matrix exactly up to 62 assets, two fewer than the arrays hold. */
  lemma InjectiveIff(n: nat)
    requires n <= MAX_ASSETS
    ensures Injective(n) <==> n <= MAX_ASSETS - 2
  {
    if n <= MAX_ASSETS - 2 {
      forall i, j, k, l | 0 <= i <= j < n && 0 <= k <= l < n && CovIndex(i, j) == CovIndex(k, l)
        ensures i == k && j == l
      {
        PairsDiffer(n, i, j, k, l);
      }
    } else {
      assert CovIndex(0, 62) == 62 == CovIndex(1, 1);
    }
  }

  /** The diagonal cells: twice the index of asset `i` is `i * (125 - i)`. */
  lemma DiagonalIndex(i: nat)
    ensures 2 * CovIndex(i, i) == i * (125 - i)
  {
    EvenProduct(i);
    assert i * (125 - i) == i * 126 - i * (i + 1);
  }

  lemma {:induction false} EvenProduct(i: nat)
    ensures (i * (i + 1)) % 2 == 0
  {
    if i > 0 {
      EvenProduct(i - 1);
      assert i * (i + 1) == (i - 1) * i + 2 * i;
    }
  }

  /** A diagonal index lands inside the array exactly up to asset 125; beyond it the expression is negative. */
  lemma DiagonalInBoundsIff(i: nat)
    ensures 0 <= CovIndex(i, i) < CELLS <==> i <= 125
    ensures i > 125 ==> CovIndex(i, i) < 0
  {
    DiagonalIndex(i);
    SquareAround(i);
    if i <= 125 {
      MulMonotone(0, 125 - i, i);
    } else {
      MulMonotone(125 - i, -1, i);
    }
  }

  /** Two diagonal indices hit one cell exactly when they are equal or add up to 125. */
  lemma DiagonalAliasIff(i: nat, k: nat)
    ensures CovIndex(i, i) == CovIndex(k, k) <==> i == k || i + k == 125
  {
    DiagonalIndex(i);
    DiagonalIndex(k);
    assert i * (125 - i) - k * (125 - k) == (i - k) * (125 - (i + k));
    ZeroProduct(i - k, 125 - (i + k));
  }

  lemma ZeroProduct(a: int, b: int)
    ensures a * b == 0 <==> a == 0 || b == 0
  {
    if a > 0 {
      MulOrder(1, b, a);
      MulOrder(b, -1, a);
    } else if a < 0 {
      MulOrder(1, b, -a);
      MulOrder(b, -1, -a);
      assert b * (-a) + a * b == 0;
    }
  }

  // ---------------------------------------------------------------- shrinkage

  /** The largest magnitude whose product with the scale fits an i64. */
  const LIMIT: nat := (I64_MAX / SCALE) as nat

  function Cell(c: seq<int>, i: nat, j: nat): int
    requires |c| == CELLS && i < MAX_ASSETS && j < MAX_ASSETS
  {
    IndexInBounds(i, j);
    c[CovIndex(i, j)]
  }

  function SetCell(c: seq<int>, i: nat, j: nat, x: int): (r: seq<int>)
    requires |c| == CELLS && i < MAX_ASSETS && j < MAX_ASSETS
    ensures |r| == CELLS
  {
    IndexInBounds(i, j);
    c[CovIndex(i, j) := x]
  }

  /** The saturating sum of the first `k` variances. */
  function VarianceSum(c: seq<int>, k: nat): int
    requires |c| == CELLS && k <= MAX_ASSETS
  {
    if k == 0 then 0 else Saturate(VarianceSum(c, k - 1) + Cell(c, k - 1, k - 1))
  }

  function AverageVariance(c: seq<int>, n: nat): int
    requires |c| == CELLS && 0 < n <= MAX_ASSETS
  {
    TruncDiv(VarianceSum(c, n), n)
  }

  /** One cell: diagonal toward the average, off-diagonal toward zero. */
  function Shrunk(x: int, diagonal: bool, avg: int, intensity: int): int {
    if diagonal then TruncDiv(WrapI64(intensity * avg + (SCALE - intensity) * x), SCALE)
    else TruncDiv(WrapI64((SCALE - intensity) * x), SCALE)
  }

  /** The double loop of `apply_shrinkage` from the pair `(i, j)` on. */
  function ShrinkFrom(c: seq<int>, avg: int, intensity: int, n: nat, i: nat, j: nat): (r: seq<int>)
    requires |c| == CELLS && n <= MAX_ASSETS && i <= j
    ensures |r| == CELLS
    decreases n - i, n - j
  {
    if i >= n then c
    else if j >= n then ShrinkFrom(c, avg, intensity, n, i + 1, i + 1)
    else ShrinkFrom(SetCell(c, i, j, Shrunk(Cell(c, i, j), i == j, avg, intensity)), avg, intensity, n, i, j + 1)
  }

  /** Up to 62 assets, writing one pair changes what is read for that pair only. */
  lemma ReadAfterWrite(c: seq<int>, n: nat, i: nat, j: nat, x: int, k: nat, l: nat)
    requires |c| == CELLS && n <= MAX_ASSETS - 2 && i <= j < n && k <= l < n
    ensures Cell(SetCell(c, i, j, x), k, l) == if i == k && j == l then x else Cell(c, k, l)
  {
    IndexInBounds(i, j);
    IndexInBounds(k, l);
    if CovIndex(i, j) == CovIndex(k, l) {
      PairsDiffer(n, i, j, k, l);
    }
  }

  /** Up to 62 assets every pair's cell is shrunk exactly once. */
  lemma {:induction false} ShrinkTouchesOnce(c: seq<int>, avg: int, intensity: int, n: nat, i: nat, j: nat, k: nat, l: nat)
    requires |c| == CELLS && n <= MAX_ASSETS - 2 && i <= j && k <= l < n
    ensures Cell(ShrinkFrom(c, avg, intensity, n, i, j), k, l) ==
      if k > i || (k == i && l >= j) then Shrunk(Cell(c, k, l), k == l, avg, intensity) else Cell(c, k, l)
    decreases n - i, n - j
  {
    if i < n {
      if j >= n {
        ShrinkTouchesOnce(c, avg, intensity, n, i + 1, i + 1, k, l);
      } else {
        var x := Shrunk(Cell(c, i, j), i == j, avg, intensity);
        ShrinkTouchesOnce(SetCell(c, i, j, x), avg, intensity, n, i, j + 1, k, l);
        ReadAfterWrite(c, n, i, j, x, k, l);
      }
    }
  }

  /** Cells that belong to no pair of the `n` assets are left alone, for any `n`. */
  lemma {:induction false} ShrinkLeavesOthers(c: seq<int>, avg: int, intensity: int, n: nat, i: nat, j: nat, at: nat)
    requires |c| == CELLS && n <= MAX_ASSETS && i <= j && at < CELLS
    requires forall k, l :: 0 <= k <= l < n ==> CovIndex(k, l) != at
    ensures ShrinkFrom(c, avg, intensity, n, i, j)[at] == c[at]
    decreases n - i, n - j
  {
    if i < n {
      if j >= n {
        ShrinkLeavesOthers(c, avg, intensity, n, i + 1, i + 1, at);
      } else {
        var d := SetCell(c, i, j, Shrunk(Cell(c, i, j), i == j, avg, intensity));
        ShrinkLeavesOthers(d, avg, intensity, n, i, j + 1, at);
      }
    }
  }

  /** A quotient of a sum of `n` values in a range lies in that range. */
  lemma MeanWithin(a: int, n: nat, low: nat, high: nat)
    requires 0 < n && low * n <= a <= high * n
    ensures 0 <= a && low <= TruncDiv(a, n) <= high
  {
    MulMonotone(0, low, n);
    QuotientWithin(a, n, low, high);
  }

  lemma {:induction false} VarianceSumWithin(c: seq<int>, k: nat, low: nat, high: nat)
    requires |c| == CELLS && k <= MAX_ASSETS && high * MAX_ASSETS <= I64_MAX
    requires forall i: nat :: i < k ==> low <= Cell(c, i, i) <= high
    ensures low * k <= VarianceSum(c, k) <= high * k
  {
    if k > 0 {
      VarianceSumWithin(c, k - 1, low, high);
      OneMoreWithin(k, VarianceSum(c, k - 1), Cell(c, k - 1, k - 1), low, high);
    }
  }

  lemma OneMoreWithin(k: nat, sum: int, x: int, low: nat, high: nat)
    requires 0 < k <= MAX_ASSETS && high * MAX_ASSETS <= I64_MAX
    requires low * (k - 1) <= sum <= high * (k - 1) && low <= x <= high
    ensures low * k <= Saturate(sum + x) <= high * k
  {
    assert low * k == low * (k - 1) + low && high * k == high * (k - 1) + high;
    MulMonotone(0, low, k);
    MulMonotone(k, MAX_ASSETS, high);
  }

  lemma BlendBounds(avg: int, x: int, i: nat, rest: nat, low: nat, high: nat)
    requires low <= avg <= high && low <= x <= high
    ensures low * (i + rest) <= i * avg + rest * x <= high * (i + rest)
  {
    MulMonotone(low, avg, i);
    MulMonotone(avg, high, i);
    MulMonotone(low, x, rest);
    MulMonotone(x, high, rest);
    assert low * (i + rest) == low * i + low * rest;
    assert high * (i + rest) == high * i + high * rest;
  }

  lemma ScaleFits(x: nat, m: nat)
    requires x <= m * SCALE && m <= LIMIT
    ensures x <= I64_MAX && WrapI64(x) == x
  {
    MulMonotone(m, LIMIT, SCALE);
  }

  lemma BlendWithin(avg: int, x: int, intensity: nat, low: nat, high: nat)
    requires low <= avg <= high <= LIMIT && low <= x <= high && intensity <= SCALE
    ensures low <= Shrunk(x, true, avg, intensity) <= high
  {
    var blend := intensity * avg + (SCALE - intensity) * x;
    BlendBounds(avg, x, intensity, SCALE - intensity, low, high);
    MeanWithin(blend, SCALE, low, high);
    ScaleFits(blend, high);
  }

  /**
   For up to 62 assets with variances in `[low, high]`, shrinkage keeps every variance in
   that range.
   */
  lemma ShrinkKeepsVariances(c: seq<int>, intensity: nat, n: nat, k: nat, low: nat, high: nat)
    requires |c| == CELLS && 0 < n <= MAX_ASSETS - 2 && k < n && intensity <= SCALE && high <= LIMIT
    requires forall i: nat :: i < n ==> low <= Cell(c, i, i) <= high
    ensures low <= Cell(ShrinkFrom(c, AverageVariance(c, n), intensity, n, 0, 0), k, k) <= high
  {
    VarianceSumWithin(c, n, low, high);
    MeanWithin(VarianceSum(c, n), n, low, high);
    ShrinkTouchesOnce(c, AverageVariance(c, n), intensity, n, 0, 0, k, k);
    BlendWithin(AverageVariance(c, n), Cell(c, k, k), intensity, low, high);
  }

  /** A covariance keeps its sign and never grows in magnitude. */
  lemma CovarianceShrinks(x: int, avg: int, intensity: nat)
    requires 0 - LIMIT <= x <= LIMIT && intensity <= SCALE
    ensures x >= 0 ==> 0 <= Shrunk(x, false, avg, intensity) <= x
    ensures x < 0 ==> x <= Shrunk(x, false, avg, intensity) <= 0
  {
    var rest := SCALE - intensity;
    ScaledDown(rest, if x >= 0 then x else -x);
    if x >= 0 {
      FitsAndTruncates(rest * x, rest * x);
    } else {
      assert rest * x == -(rest * (-x));
      FitsAndTruncates(rest * x, rest * (-x));
    }
  }

  /** At full intensity the target replaces the cell, at none the cell stays. */
  lemma ShrunkAtEnds(x: int, diagonal: bool, avg: int)
    requires 0 - LIMIT <= x <= LIMIT && 0 - LIMIT <= avg <= LIMIT
    ensures Shrunk(x, diagonal, avg, 0) == x
    ensures Shrunk(x, diagonal, avg, SCALE) == if diagonal then avg else 0
  {
    ScaledExactly(x);
    ScaledExactly(avg);
    ScaledExactly(0);
  }

  lemma ScaledExactly(x: int)
    requires 0 - LIMIT <= x <= LIMIT
    ensures TruncDiv(WrapI64(SCALE * x), SCALE) == x
  {
    var m := if x >= 0 then x else -x;
    MulMonotone(m, LIMIT, SCALE);
    FitsAndTruncates(SCALE * x, SCALE * m);
    DivUnique(SCALE * m, SCALE, m, 0);
  }

  /** More intensity never moves a variance away from the average. */
  lemma MoreShrinkageIsCloser(x: nat, avg: nat, small: nat, large: nat)
    requires x <= LIMIT && avg <= LIMIT && small <= large <= SCALE
    ensures avg <= x ==> avg <= Shrunk(x, true, avg, large) <= Shrunk(x, true, avg, small) <= x
    ensures x <= avg ==> x <= Shrunk(x, true, avg, small) <= Shrunk(x, true, avg, large) <= avg
  {
    var low, high := Min(x, avg), Max(x, avg);
    BlendWithin(avg, x, small, low, high);
    BlendWithin(avg, x, large, low, high);
    BlendOrder(x, avg, small, large);
    BlendIsQuotient(x, avg, small, high);
    BlendIsQuotient(x, avg, large, high);
    var a, b := small * avg + (SCALE - small) * x, large * avg + (SCALE - large) * x;
    if avg <= x {
      DivMonotone(b, a, SCALE);
    } else {
      DivMonotone(a, b, SCALE);
    }
  }

  // ---------------------------------------------------------------- the ceiling of shrinkage

  /** Whatever goes in, a shrunk cell is at most the limit in magnitude. */
  lemma ShrunkAtMostLimit(x: int, diagonal: bool, avg: int, intensity: int)
    ensures 0 - LIMIT <= Shrunk(x, diagonal, avg, intensity) <= LIMIT
  {
    RegisterQuotient(intensity * avg + (SCALE - intensity) * x);
    RegisterQuotient((SCALE - intensity) * x);
  }

  lemma RegisterQuotient(p: int)
    ensures 0 - LIMIT <= TruncDiv(WrapI64(p), SCALE) <= LIMIT
  {
    var r := WrapI64(p);
    if r >= 0 {
      DivMonotone(r, I64_MAX, SCALE);
    } else {
      DivMonotone(0 - r, I64_MAX + 1, SCALE);
    }
  }

  /** A cell survives multiplication and division by the scale if and only if it is within the limit. */
  lemma ScaledExactIff(x: int)
    ensures TruncDiv(WrapI64(SCALE * x), SCALE) == x <==> 0 - LIMIT <= x <= LIMIT
  {
    RegisterQuotient(SCALE * x);
    if 0 - LIMIT <= x <= LIMIT {
      ScaledExactly(x);
    }
  }

  /** Without shrinkage a cell stays, and with full shrinkage it takes the average, exactly within the limit. */
  lemma ShrunkAtEndsIff(x: int, diagonal: bool, avg: int)
    ensures Shrunk(x, diagonal, avg, 0) == x <==> 0 - LIMIT <= x <= LIMIT
    ensures diagonal ==> (Shrunk(x, diagonal, avg, SCALE) == avg <==> 0 - LIMIT <= avg <= LIMIT)
  {
    ScaledExactIff(x);
    ScaledExactIff(avg);
  }

  lemma JustAboveLimit()
    ensures TruncDiv(WrapI64(SCALE * (LIMIT + 1)), SCALE) < 0
  {
  }

  ghost predicate CovariancesAlwaysShrink(bound: nat) {
    forall x: int, avg: int, intensity: nat :: 0 - bound <= x <= bound && intensity <= SCALE ==>
      && (x >= 0 ==> 0 <= Shrunk(x, false, avg, intensity) <= x)
      && (x < 0 ==> x <= Shrunk(x, false, avg, intensity) <= 0)
  }

  /** Covariances up to a bound all keep their sign and do not grow if and only if the bound is within the limit. */
  lemma CovarianceShrinksIff(bound: nat)
    ensures CovariancesAlwaysShrink(bound) <==> bound <= LIMIT
  {
    if bound <= LIMIT {
      forall x: int, avg: int, intensity: nat | 0 - bound <= x <= bound && intensity <= SCALE
        ensures x >= 0 ==> 0 <= Shrunk(x, false, avg, intensity) <= x
        ensures x < 0 ==> x <= Shrunk(x, false, avg, intensity) <= 0
      {
        CovarianceShrinks(x, avg, intensity);
      }
    } else {
      JustAboveLimit();
      assert Shrunk(LIMIT + 1, false, 0, 0) < 0;
    }
  }

  /** More shrinkage brings the variance closer to the average, without crossing it. */
  ghost predicate Closer(x: nat, avg: nat, small: nat, large: nat) {
    && (avg <= x ==> avg <= Shrunk(x, true, avg, large) <= Shrunk(x, true, avg, small) <= x)
    && (x <= avg ==> x <= Shrunk(x, true, avg, small) <= Shrunk(x, true, avg, large) <= avg)
  }

  ghost predicate AlwaysCloser(bound: nat) {
    forall x: nat, avg: nat, small: nat, large: nat ::
      x <= bound && avg <= bound && small <= large <= SCALE ==> Closer(x, avg, small, large)
  }

  /** For all variances up to a bound this holds if and only if the bound is within the limit. */
  lemma MoreShrinkageIsCloserIff(bound: nat)
    ensures AlwaysCloser(bound) <==> bound <= LIMIT
  {
    if bound <= LIMIT {
      forall x: nat, avg: nat, small: nat, large: nat | x <= bound && avg <= bound && small <= large <= SCALE
        ensures Closer(x, avg, small, large)
      {
        MoreShrinkageIsCloser(x, avg, small, large);
      }
    } else {
      ShrunkAtMostLimit(LIMIT + 1, true, LIMIT + 1, 0);
      assert !Closer(LIMIT + 1, LIMIT + 1, 0, 0);
    }
  }

  lemma BlendOrder(x: nat, avg: nat, small: nat, large: nat)
    requires small <= large
    ensures var a, b := small * avg + (SCALE - small) * x, large * avg + (SCALE - large) * x;
      (avg <= x ==> b <= a) && (x <= avg ==> a <= b)
  {
    var d := large - small;
    assert large * avg + (SCALE - large) * x == small * avg + (SCALE - small) * x + d * avg - d * x;
    MulOrder(avg, x, d);
    MulOrder(x, avg, d);
  }

  lemma BlendIsQuotient(x: nat, avg: nat, intensity: nat, high: nat)
    requires x <= high && avg <= high <= LIMIT && intensity <= SCALE
    ensures var blend := intensity * avg + (SCALE - intensity) * x;
      0 <= blend && Shrunk(x, true, avg, intensity) == blend / SCALE
  {
    BlendBounds(avg, x, intensity, SCALE - intensity, 0, high);
    ScaleFits(intensity * avg + (SCALE - intensity) * x, high);
  }

  lemma FitsAndTruncates(p: int, m: nat)
    requires m <= I64_MAX && (p == m || p + m == 0)
    ensures TruncDiv(WrapI64(p), SCALE) == if p >= 0 then m / SCALE else -(m / SCALE)
  {
  }

  lemma ScaledDown(rest: nat, m: nat)
    requires rest <= SCALE && m <= LIMIT
    ensures 0 <= rest * m <= I64_MAX && 0 <= (rest * m) / SCALE <= m
  {
    MulMonotone(rest, SCALE, m);
    MulMonotone(m, LIMIT, SCALE);
    MeanWithin(rest * m, SCALE, 0, m);
  }

  // ---------------------------------------------------------------- weights

  function InverseVariance(variance: int): nat {
    if variance > 0 then (SCALE * SCALE) / variance else 0
  }

  /** The range in which no weight product overflows, in terms of the variance itself. */
  lemma InverseInRangeIff(variance: int)
    ensures InverseVariance(variance) <= LIMIT <==> variance <= 0 || variance >= 108_421
  {
    if variance > 0 {
      DivBounds(SCALE * SCALE, variance);
      var q := InverseVariance(variance);
      if variance >= 108_421 && q > LIMIT {
        MulMonotone(LIMIT + 1, q, variance);
        MulMonotone(108_421, variance, LIMIT + 1);
      } else if variance < 108_421 && q <= LIMIT {
        MulMonotone(q, LIMIT, variance);
        MulMonotone(variance, 108_420, LIMIT + 1);
      }
    }
  }

  function Inverses(c: seq<int>, n: nat): (inv: seq<nat>)
    requires |c| == CELLS && n <= MAX_ASSETS
    ensures |inv| == n && forall i :: 0 <= i < n ==> inv[i] == InverseVariance(Cell(c, i, i))
  {
    if n == 0 then [] else Inverses(c, n - 1) + [InverseVariance(Cell(c, n - 1, n - 1))]
  }

  /** The saturating sum of a prefix. */
  function SaturatingSum(s: seq<int>): int {
    if s == [] then 0 else Saturate(SaturatingSum(s[..|s| - 1]) + s[|s| - 1])
  }

  function Sum(s: seq<int>): int {
    if s == [] then 0 else Sum(s[..|s| - 1]) + s[|s| - 1]
  }

  function Share(x: int, total: int): int
    requires total > 0
  {
    TruncDiv(WrapI64(x * SCALE), total)
  }

  function Shares(inv: seq<int>, total: int): (w: seq<int>)
    requires total > 0
    ensures |w| == |inv| && forall i :: 0 <= i < |inv| ==> w[i] == Share(inv[i], total)
  {
    if inv == [] then [] else Shares(inv[..|inv| - 1], total) + [Share(inv[|inv| - 1], total)]
  }

  /** The last share is replaced by whatever the others leave of the scale. */
  function ToppedUp(shares: seq<int>): (w: seq<int>)
    requires shares != []
    ensures |w| == |shares|
  {
    var last := |shares| - 1;
    shares[last := SCALE - (SaturatingSum(shares) - shares[last])]
  }

  /** The normalized weights: floored shares, with the last one set to make up the sum. */
  function Weights(inv: seq<int>): (w: seq<int>)
    requires inv != []
    ensures |w| == |inv|
  {
    var total := SaturatingSum(inv);
    if total <= 0 then inv
    else
      ToppedUp(Shares(inv, total))
  }

  ghost predicate InRange(s: seq<int>, high: int) {
    |s| <= MAX_ASSETS && forall i :: 0 <= i < |s| ==> 0 <= s[i] <= high
  }

  lemma {:induction false} SumIsExact(s: seq<int>, high: int)
    requires InRange(s, high) && 0 <= high && MAX_ASSETS * high <= I64_MAX
    ensures SaturatingSum(s) == Sum(s) && 0 <= Sum(s) <= |s| * high
  {
    if s != [] {
      SumIsExact(s[..|s| - 1], high);
      MulMonotone(|s|, MAX_ASSETS, high);
      assert (|s| - 1) * high + high == |s| * high;
    }
  }

  lemma {:induction false} PartAtMostSum(s: seq<int>, high: int, i: nat)
    requires InRange(s, high) && i < |s|
    ensures 0 <= s[i] <= Sum(s)
  {
    var n := |s| - 1;
    if i < n {
      PartAtMostSum(s[..n], high, i);
    } else if n > 0 {
      PartAtMostSum(s[..n], high, 0);
    }
  }

  /** A share is the floor of its part of the scale. */
  lemma ShareIsFloor(x: nat, total: nat)
    requires 0 < total && x <= LIMIT && x <= total
    ensures Share(x, total) == (x * SCALE) / total && 0 <= Share(x, total) <= SCALE
  {
    MulMonotone(0, x, SCALE);
    MulMonotone(x, total, SCALE);
    ScaleFits(x * SCALE, x);
    MeanWithin(x * SCALE, total, 0, SCALE);
  }

  /** Flooring `k` shares loses less than `k` units of the scaled total. */
  lemma {:induction false} SharesSum(inv: seq<int>, total: nat)
    requires 0 < total && InRange(inv, LIMIT) && (forall i :: 0 <= i < |inv| ==> inv[i] <= total)
    ensures Sum(inv) * SCALE - |inv| * total <= Sum(Shares(inv, total)) * total - |inv|
    ensures Sum(Shares(inv, total)) * total <= Sum(inv) * SCALE
  {
    if inv != [] {
      var n := |inv| - 1;
      var x := inv[n];
      SharesSum(inv[..n], total);
      assert Shares(inv, total)[..n] == Shares(inv[..n], total);
      ShareIsFloor(x, total);
      DivBounds(x * SCALE, total);
      AddShare(Sum(inv[..n]), Sum(Shares(inv[..n], total)), x, Share(x, total), total, n);
    }
  }

  lemma AddShare(s: int, w: int, x: int, q: int, total: int, n: nat)
    requires s * SCALE - n * total <= w * total - n && w * total <= s * SCALE
    requires q * total <= x * SCALE <= q * total + total - 1
    ensures (s + x) * SCALE - (n + 1) * total <= (w + q) * total - (n + 1)
    ensures (w + q) * total <= (s + x) * SCALE
  {
    assert (w + q) * total == w * total + q * total;
    assert (n + 1) * total == n * total + total;
  }

  /** What flooring leaves over for the last weight: less than one unit per asset. */
  lemma LeftoverBounds(inv: seq<int>, total: nat)
    requires inv != [] && InRange(inv, LIMIT) && Sum(inv) == total > 0
    ensures 0 <= SCALE - Sum(Shares(inv, total)) <= |inv| - 1
  {
    forall i | 0 <= i < |inv| ensures inv[i] <= total {
      PartAtMostSum(inv, LIMIT, i);
    }
    SharesSum(inv, total);
    GapBounds(Sum(Shares(inv, total)), total, |inv|);
  }

  lemma GapBounds(w: int, total: nat, n: nat)
    requires 0 < total && 0 < n
    requires w * total <= total * SCALE && total * SCALE - n * total <= w * total - n
    ensures 0 <= SCALE - w <= n - 1
  {
    assert (SCALE - n) * total == total * SCALE - n * total;
    if w > SCALE {
      MulMonotone(SCALE + 1, w, total);
    } else if w <= SCALE - n {
      MulMonotone(w, SCALE - n, total);
    }
  }

  lemma {:induction false} SumUpdate(s: seq<int>, i: nat, x: int)
    requires i < |s|
    ensures Sum(s[i := x]) == Sum(s) - s[i] + x
  {
    var n := |s| - 1;
    if i < n {
      assert s[i := x][..n] == s[..n][i := x];
      SumUpdate(s[..n], i, x);
    } else {
      assert s[i := x][..n] == s[..n];
    }
  }

  /**
   With every inverse variance in range, the weights sum to the scale exactly when some
   asset has a positive one; then each weight lies in [0, SCALE], all but the last are
   the floored shares, and the last exceeds its own by at most n - 1.
   */
  lemma WeightsAreSound(inv: seq<int>)
    requires inv != [] && InRange(inv, LIMIT)
    ensures Sum(Weights(inv)) == SCALE <==> Sum(inv) > 0
    ensures Sum(inv) > 0 ==>
      var w, total, last := Weights(inv), Sum(inv), |inv| - 1;
      && InRange(w, SCALE)
      && (forall i :: 0 <= i < last ==> w[i] == Shares(inv, total)[i])
      && 0 <= w[last] - Shares(inv, total)[last] <= last
  {
    SumIsExact(inv, LIMIT);
    if Sum(inv) > 0 {
      PositiveWeights(inv);
    }
  }

  lemma PositiveWeights(inv: seq<int>)
    requires inv != [] && InRange(inv, LIMIT) && Sum(inv) > 0 && SaturatingSum(inv) == Sum(inv)
    ensures var w, shares, last := Weights(inv), Shares(inv, Sum(inv)), |inv| - 1;
      && Sum(w) == SCALE && InRange(w, SCALE)
      && w == shares[last := w[last]] && 0 <= w[last] - shares[last] <= last
  {
    var shares := Shares(inv, Sum(inv));
    SharesAreFloors(inv, Sum(inv));
    SumIsExact(shares, SCALE);
    LeftoverBounds(inv, Sum(inv));
    TopUpLast(shares);
    assert Weights(inv) == ToppedUp(shares);
  }

  lemma TopUpLast(shares: seq<int>)
    requires shares != [] && InRange(shares, SCALE) && 0 <= SCALE - Sum(shares) <= |shares| - 1
    requires SaturatingSum(shares) == Sum(shares)
    ensures var w, last := ToppedUp(shares), |shares| - 1;
      Sum(w) == SCALE && InRange(w, SCALE) && w == shares[last := w[last]] && 0 <= w[last] - shares[last] <= last
  {
    var last := |shares| - 1;
    PartAtMostSum(shares, SCALE, last);
    SumUpdate(shares, last, SCALE - (Sum(shares) - shares[last]));
  }

  /** Shares are floors of each asset's part of the scale. */
  lemma SharesAreFloors(inv: seq<int>, total: nat)
    requires InRange(inv, LIMIT) && Sum(inv) == total > 0
    ensures InRange(Shares(inv, total), SCALE)
    ensures forall i :: 0 <= i < |inv| ==> Shares(inv, total)[i] == (inv[i] * SCALE) / total
  {
    forall i | 0 <= i < |inv|
      ensures 0 <= Shares(inv, total)[i] <= SCALE && Shares(inv, total)[i] == (inv[i] * SCALE) / total
    {
      PartAtMostSum(inv, LIMIT, i);
      ShareIsFloor(inv[i], total);
    }
  }

  /** A lower variance never gets a smaller weight, unless the other asset is the last one. */
  lemma LowerVarianceMoreWeight(inv: seq<int>, i: nat, j: nat)
    requires inv != [] && InRange(inv, LIMIT) && i < |inv| && j < |inv| - 1 && inv[j] <= inv[i]
    ensures Weights(inv)[j] <= Weights(inv)[i]
  {
    SumIsExact(inv, LIMIT);
    if Sum(inv) > 0 {
      PositiveWeights(inv);
      SharesAreFloors(inv, Sum(inv));
      MulMonotone(inv[j], inv[i], SCALE);
      DivMonotone(inv[j] * SCALE, inv[i] * SCALE, Sum(inv));
    }
  }

  // ---------------------------------------------------------------- which variances are safe

  /** The smallest positive variance whose inverse keeps weight products in i64, about 0.00108. */
  const MIN_VARIANCE: nat := 108_421

  /** The weights sum to the scale and each lies between 0 and the scale. */
  ghost predicate Portfolio(w: seq<int>) {
    Sum(w) == SCALE && InRange(w, SCALE)
  }

  function InversesOf(variances: seq<int>): (inv: seq<nat>)
    ensures |inv| == |variances| && forall i :: 0 <= i < |inv| ==> inv[i] == InverseVariance(variances[i])
  {
    seq(|variances|, i requires 0 <= i < |variances| => InverseVariance(variances[i]))
  }

  /** Variances that are not positive, or at least `low`; some inverse is positive. */
  ghost predicate Floored(variances: seq<int>, low: nat) {
    && variances != [] && |variances| <= MAX_ASSETS && Sum(InversesOf(variances)) > 0
    && forall i :: 0 <= i < |variances| ==> variances[i] <= 0 || variances[i] >= low
  }

  lemma InversesInRange(variances: seq<int>)
    requires Floored(variances, MIN_VARIANCE)
    ensures InRange(InversesOf(variances), LIMIT)
  {
    forall i | 0 <= i < |variances| ensures 0 <= InversesOf(variances)[i] <= LIMIT {
      InverseInRangeIff(variances[i]);
    }
  }

  /** Ordinary daily variances are already below it: two assets at 0.001 get -42% and +142%. */
  lemma SmallVariancesOverflow()
    ensures InverseVariance(100_000) == 100_000_000_000
    ensures Weights([100_000_000_000, 100_000_000_000]) == [-42_233_720, 142_233_720]
  {
    var x := 100_000_000_000;
    var inv := [x, x];
    assert inv[..1] == [x] && [x][..0] == [];
    assert SaturatingSum([x]) == x && SaturatingSum(inv) == 2 * x;
    assert x * SCALE - U64 == -8_446_744_073_709_551_616;
    assert WrapI64(x * SCALE) == -8_446_744_073_709_551_616;
    assert Share(x, 2 * x) == -42_233_720;
    var shares := Shares(inv, 2 * x);
    assert shares == [-42_233_720, -42_233_720];
    assert shares[..1] == [-42_233_720] && shares[..1][..0] == [];
    assert SaturatingSum(shares[..1]) == -42_233_720;
    assert SaturatingSum(shares) == -84_467_440;
  }

  /** The inverse of the largest unsafe variance. */
  const UNSAFE_INVERSE: nat := 92_233_905_183

  lemma UnsafeInverse()
    ensures InverseVariance(MIN_VARIANCE - 1) == UNSAFE_INVERSE
    ensures WrapI64(UNSAFE_INVERSE * SCALE) == UNSAFE_INVERSE * SCALE - U64 < 0
  {
    DivUnique(SCALE * SCALE, MIN_VARIANCE - 1, UNSAFE_INVERSE, SCALE * SCALE - UNSAFE_INVERSE * (MIN_VARIANCE - 1));
  }

  lemma {:induction false} SumOfEqual(s: seq<int>, x: int)
    requires forall i :: 0 <= i < |s| ==> s[i] == x
    ensures Sum(s) == |s| * x
  {
    if s != [] {
      SumOfEqual(s[..|s| - 1], x);
      assert (|s| - 1) * x + x == |s| * x;
    }
  }

  lemma NegativeShare(n: nat)
    requires 0 < n <= MAX_ASSETS
    ensures n * UNSAFE_INVERSE > 0 && Share(UNSAFE_INVERSE, n * UNSAFE_INVERSE) < 0
  {
    UnsafeInverse();
    MulMonotone(1, n, UNSAFE_INVERSE);
    MulMonotone(n, MAX_ASSETS, UNSAFE_INVERSE);
    var total := n * UNSAFE_INVERSE;
    DivMonotone(total, U64 - UNSAFE_INVERSE * SCALE, total);
    DivUnique(total, total, 1, 0);
  }

  /** Any two or more assets of that variance get weights out of range. */
  lemma EqualUnsafeAssets(inv: seq<int>)
    requires 2 <= |inv| <= MAX_ASSETS && forall i :: 0 <= i < |inv| ==> inv[i] == UNSAFE_INVERSE
    ensures Sum(inv) > 0 && !InRange(Weights(inv), SCALE)
  {
    SumOfEqual(inv, UNSAFE_INVERSE);
    NegativeShare(|inv|);
    SumIsExact(inv, UNSAFE_INVERSE);
    var shares := Shares(inv, Sum(inv));
    assert shares[0] < 0 && Weights(inv) == ToppedUp(shares);
    assert Weights(inv)[0] == shares[0];
  }

  ghost predicate AlwaysInRange(low: nat) {
    forall variances: seq<int> :: Floored(variances, low) ==> InRange(Weights(InversesOf(variances)), SCALE)
  }

  /**
   The weights lie in [0, SCALE] for all variances with positive ones from `low` on, if and
   only if `low` is at least 108421.
   */
  lemma WeightsInRangeIff(low: nat)
    requires 0 < low
    ensures AlwaysInRange(low) <==> low >= MIN_VARIANCE
  {
    if low >= MIN_VARIANCE {
      forall variances: seq<int> | Floored(variances, low)
        ensures InRange(Weights(InversesOf(variances)), SCALE)
      {
        InversesInRange(variances);
        WeightsAreSound(InversesOf(variances));
      }
    } else {
      var variances := [MIN_VARIANCE - 1, MIN_VARIANCE - 1];
      UnsafeInverse();
      EqualUnsafeAssets(InversesOf(variances));
      assert Floored(variances, low);
    }
  }

  // ---------------------------------------------------------------- the whole optimization

  ghost predicate VariancesWithin(c: seq<int>, n: nat, low: int, high: int)
    requires |c| == CELLS && n <= MAX_ASSETS
  {
    forall i: nat :: i < n ==> low <= Cell(c, i, i) <= high
  }

  /** The matrix after `apply_shrinkage`. */
  function ShrunkMatrix(c: seq<int>, intensity: int, n: nat): (r: seq<int>)
    requires |c| == CELLS && 0 < n <= MAX_ASSETS
    ensures |r| == CELLS
  {
    ShrinkFrom(c, AverageVariance(c, n), intensity, n, 0, 0)
  }

  /** The weights that `optimize` computes from a covariance matrix. */
  function OptimalWeights(c: seq<int>, intensity: int, n: nat): (w: seq<int>)
    requires |c| == CELLS && 0 < n <= MAX_ASSETS
    ensures |w| == n
  {
    Weights(Inverses(ShrunkMatrix(c, intensity, n), n))
  }

  lemma MatrixStaysWithin(c: seq<int>, intensity: nat, n: nat, low: nat, high: nat)
    requires |c| == CELLS && 0 < n <= MAX_ASSETS - 2 && intensity <= SCALE && high <= LIMIT
    requires VariancesWithin(c, n, low, high)
    ensures VariancesWithin(ShrunkMatrix(c, intensity, n), n, low, high)
  {
    forall k: nat | k < n
      ensures low <= Cell(ShrunkMatrix(c, intensity, n), k, k) <= high
    {
      ShrinkKeepsVariances(c, intensity, n, k, low, high);
    }
  }

  /** Inputs for which the whole optimization stays inside i64 and its cells apart. */
  ghost predicate SafeInput(c: seq<int>, intensity: int, n: nat)
    requires |c| == CELLS
  {
    n <= MAX_ASSETS - 2 && 0 <= intensity <= SCALE && VariancesWithin(c, n, MIN_VARIANCE, LIMIT)
  }

  /** From variances between 108421 and the limit to weights: every asset gets a share and they make up the whole. */
  lemma OptimizeIsSound(c: seq<int>, intensity: nat, n: nat)
    requires |c| == CELLS && 0 < n && SafeInput(c, intensity, n)
    ensures Portfolio(OptimalWeights(c, intensity, n))
  {
    SafeInverses(c, intensity, n);
    WeightsAreSound(Inverses(ShrunkMatrix(c, intensity, n), n));
  }

  lemma PositiveInverse(variance: int)
    requires 0 < variance <= LIMIT
    ensures InverseVariance(variance) > 0
  {
    DivMonotone(variance, SCALE * SCALE, variance);
    DivUnique(variance, variance, 1, 0);
  }

  ghost predicate OptimizeAlwaysSound(intensity: int, n: nat, low: nat, high: nat)
    requires 0 < n <= MAX_ASSETS
  {
    forall c: seq<int> :: |c| == CELLS && VariancesWithin(c, n, low, high) ==> Portfolio(OptimalWeights(c, intensity, n))
  }

  /** A matrix with one value in every cell. */
  function FlatMatrix(x: int): (c: seq<int>)
    ensures |c| == CELLS && forall at :: 0 <= at < CELLS ==> c[at] == x
  {
    seq(CELLS, _ => x)
  }

  lemma FlatVariances(x: int, n: nat)
    requires n <= MAX_ASSETS
    ensures VariancesWithin(FlatMatrix(x), n, x, x)
  {
    forall i: nat | i < n ensures Cell(FlatMatrix(x), i, i) == x {
      IndexInBounds(i, i);
    }
  }

  lemma UnsafeInverses(m: seq<int>, n: nat)
    requires |m| == CELLS && n <= MAX_ASSETS && VariancesWithin(m, n, MIN_VARIANCE - 1, MIN_VARIANCE - 1)
    ensures forall i :: 0 <= i < n ==> Inverses(m, n)[i] == UNSAFE_INVERSE
  {
    UnsafeInverse();
    forall i: nat | i < n ensures InverseVariance(Cell(m, i, i)) == UNSAFE_INVERSE {
      assert Cell(m, i, i) == MIN_VARIANCE - 1;
    }
  }

  lemma FlatMatrixFails(intensity: nat, n: nat)
    requires 2 <= n <= MAX_ASSETS - 2 && intensity <= SCALE
    ensures VariancesWithin(FlatMatrix(MIN_VARIANCE - 1), n, MIN_VARIANCE - 1, MIN_VARIANCE - 1)
    ensures !Portfolio(OptimalWeights(FlatMatrix(MIN_VARIANCE - 1), intensity, n))
  {
    var c := FlatMatrix(MIN_VARIANCE - 1);
    FlatVariances(MIN_VARIANCE - 1, n);
    MatrixStaysWithin(c, intensity, n, MIN_VARIANCE - 1, MIN_VARIANCE - 1);
    UnsafeInverses(ShrunkMatrix(c, intensity, n), n);
    EqualUnsafeAssets(Inverses(ShrunkMatrix(c, intensity, n), n));
  }

  lemma FlatAverage(x: nat, n: nat)
    requires 0 < n <= MAX_ASSETS && x * MAX_ASSETS <= I64_MAX
    ensures AverageVariance(FlatMatrix(x), n) == x
  {
    FlatVariances(x, n);
    VarianceSumWithin(FlatMatrix(x), n, x, x);
    DivUnique(n * x, n, x, 0);
    assert x * n == n * x;
  }

  /** One unit above the limit every variance wraps to a negative one. */
  lemma CeilingWraps(intensity: nat, n: nat, k: nat)
    requires 0 < n <= MAX_ASSETS - 2 && k < n && intensity <= SCALE
    ensures Cell(ShrunkMatrix(FlatMatrix(LIMIT + 1), intensity, n), k, k) < 0
  {
    var x := LIMIT + 1;
    var c := FlatMatrix(x);
    FlatVariances(x, n);
    FlatAverage(x, n);
    ShrinkTouchesOnce(c, x, intensity, n, 0, 0, k, k);
    SplitScale(x, intensity);
    JustAboveLimit();
  }

  lemma SplitScale(x: int, intensity: int)
    ensures intensity * x + (SCALE - intensity) * x == SCALE * x
  {
  }

  /** Then `optimize` reports success with all weights 0. */
  lemma CeilingFails(intensity: nat, n: nat)
    requires 0 < n <= MAX_ASSETS - 2 && intensity <= SCALE
    ensures VariancesWithin(FlatMatrix(LIMIT + 1), n, LIMIT + 1, LIMIT + 1)
    ensures Sum(OptimalWeights(FlatMatrix(LIMIT + 1), intensity, n)) == 0
  {
    var m := ShrunkMatrix(FlatMatrix(LIMIT + 1), intensity, n);
    FlatVariances(LIMIT + 1, n);
    var inv: seq<int> := Inverses(m, n);
    forall i: nat | i < n ensures inv[i] == 0 {
      CeilingWraps(intensity, n, i);
    }
    SumOfEqual(inv, 0);
    SumIsExact(inv, 0);
  }

  ghost predicate ShrinkAlwaysWithin(intensity: int, n: nat, low: nat, high: nat)
    requires 0 < n <= MAX_ASSETS
  {
    forall c: seq<int> :: |c| == CELLS && VariancesWithin(c, n, low, high) ==>
      VariancesWithin(ShrunkMatrix(c, intensity, n), n, low, high)
  }

  /** Shrinkage keeps all variances of a range in that range if and only if the range ends within the limit. */
  lemma ShrinkKeepsIff(intensity: nat, n: nat, low: nat, high: nat)
    requires 0 < n <= MAX_ASSETS - 2 && intensity <= SCALE && low <= high
    ensures ShrinkAlwaysWithin(intensity, n, low, high) <==> high <= LIMIT
  {
    if high <= LIMIT {
      forall c: seq<int> | |c| == CELLS && VariancesWithin(c, n, low, high)
        ensures VariancesWithin(ShrunkMatrix(c, intensity, n), n, low, high)
      {
        MatrixStaysWithin(c, intensity, n, low, high);
      }
    } else {
      var x := Max(low, LIMIT + 1);
      var c := FlatMatrix(x);
      FlatVariances(x, n);
      assert VariancesWithin(c, n, low, high);
      ShrinkTouchesOnce(c, AverageVariance(c, n), intensity, n, 0, 0, 0, 0);
      ShrunkAtMostLimit(Cell(c, 0, 0), true, AverageVariance(c, n), intensity);
      if low <= LIMIT {
        CeilingWraps(intensity, n, 0);
      }
      assert !(low <= Cell(ShrunkMatrix(c, intensity, n), 0, 0));
    }
  }

  /**
   For two to 62 assets and any intensity in [0, SCALE]: `optimize` turns every matrix with
   variances from `low` to `high` into weights in [0, SCALE] that sum to SCALE, if and only
   if `low` is at least 108421 and `high` at most 92233720368.
   */
  lemma OptimizeSoundIff(intensity: nat, n: nat, low: nat, high: nat)
    requires 2 <= n <= MAX_ASSETS - 2 && intensity <= SCALE
    requires 0 < low <= LIMIT && MIN_VARIANCE <= high
    ensures OptimizeAlwaysSound(intensity, n, low, high) <==> low >= MIN_VARIANCE && high <= LIMIT
  {
    if low < MIN_VARIANCE {
      FlatMatrixFails(intensity, n);
      assert VariancesWithin(FlatMatrix(MIN_VARIANCE - 1), n, low, high);
    } else if high > LIMIT {
      CeilingFails(intensity, n);
      assert VariancesWithin(FlatMatrix(LIMIT + 1), n, low, high);
    } else {
      forall c: seq<int> | |c| == CELLS && VariancesWithin(c, n, low, high)
        ensures Portfolio(OptimalWeights(c, intensity, n))
      {
        OptimizeIsSound(c, intensity, n);
      }
    }
  }

  // ---------------------------------------------------------------- what is computed

  /** The variances of the first `n` assets. */
  function Diagonal(c: seq<int>, n: nat): (v: seq<int>)
    requires |c| == CELLS && n <= MAX_ASSETS
    ensures |v| == n && forall i: nat :: i < n ==> v[i] == Cell(c, i, i)
  {
    seq(n, i requires 0 <= i < n => Cell(c, i, i))
  }

  lemma DiagonalSnoc(c: seq<int>, k: nat)
    requires |c| == CELLS && 0 < k <= MAX_ASSETS
    ensures Sum(Diagonal(c, k)) == Sum(Diagonal(c, k - 1)) + Cell(c, k - 1, k - 1)
  {
    assert Diagonal(c, k)[..k - 1] == Diagonal(c, k - 1);
  }

  lemma OneMoreFits(k: nat, sum: int, x: int)
    requires 0 < k <= MAX_ASSETS && 0 - (k - 1) * LIMIT <= sum <= (k - 1) * LIMIT && 0 - LIMIT <= x <= LIMIT
    ensures 0 - k * LIMIT <= sum + x <= k * LIMIT && Saturate(sum + x) == sum + x
  {
    MulMonotone(k, MAX_ASSETS, LIMIT);
    assert (k - 1) * LIMIT + LIMIT == k * LIMIT;
  }

  lemma {:induction false} VarianceSumIsExact(c: seq<int>, k: nat)
    requires |c| == CELLS && k <= MAX_ASSETS && VariancesWithin(c, k, 0 - LIMIT, LIMIT)
    ensures VarianceSum(c, k) == Sum(Diagonal(c, k)) && 0 - k * LIMIT <= Sum(Diagonal(c, k)) <= k * LIMIT
  {
    if k > 0 {
      VarianceSumIsExact(c, k - 1);
      DiagonalSnoc(c, k);
      OneMoreFits(k, Sum(Diagonal(c, k - 1)), Cell(c, k - 1, k - 1));
    }
  }

  /** The shrinkage target is the truncated mean of the `n` variances. */
  lemma TargetIsMean(c: seq<int>, n: nat)
    requires |c| == CELLS && 0 < n <= MAX_ASSETS && VariancesWithin(c, n, 0 - LIMIT, LIMIT)
    ensures AverageVariance(c, n) == TruncDiv(Sum(Diagonal(c, n)), n)
    ensures VariancesWithin(c, n, 0, LIMIT) ==>
      n * AverageVariance(c, n) <= Sum(Diagonal(c, n)) < n * (AverageVariance(c, n) + 1)
  {
    VarianceSumIsExact(c, n);
    if VariancesWithin(c, n, 0, LIMIT) {
      VarianceSumWithin(c, n, 0, LIMIT);
      FlooredMean(Sum(Diagonal(c, n)), n);
    }
  }

  lemma FlooredMean(sum: nat, n: nat)
    requires n > 0
    ensures n * TruncDiv(sum, n) <= sum < n * (TruncDiv(sum, n) + 1)
  {
    DivBounds(sum, n);
  }

  /** The floored blend of `target` and `x` in the proportion `intensity` to the rest. */
  function Blend(x: int, target: int, intensity: int): int {
    TruncDiv(intensity * target + (SCALE - intensity) * x, SCALE)
  }

  /** All variances are in [0, LIMIT] and all covariances at most the limit in magnitude. */
  ghost predicate Blendable(c: seq<int>, intensity: int, n: nat)
    requires |c| == CELLS
  {
    && 0 < n <= MAX_ASSETS - 2 && 0 <= intensity <= SCALE && VariancesWithin(c, n, 0, LIMIT)
    && forall i: nat, j: nat :: i <= j < n ==> 0 - LIMIT <= Cell(c, i, j) <= LIMIT
  }

  /** Every variance is blended with the mean variance, every covariance with 0. */
  ghost predicate IsBlendOf(m: seq<int>, c: seq<int>, intensity: int, n: nat)
    requires |c| == |m| == CELLS && 0 < n <= MAX_ASSETS
  {
    forall i: nat, j: nat :: i <= j < n ==>
      Cell(m, i, j) == Blend(Cell(c, i, j), if i == j then Sum(Diagonal(c, n)) / n else 0, intensity)
  }

  lemma MeanInRange(c: seq<int>, n: nat, low: nat, high: nat)
    requires |c| == CELLS && 0 < n <= MAX_ASSETS && high <= LIMIT && VariancesWithin(c, n, low, high)
    ensures AverageVariance(c, n) == Sum(Diagonal(c, n)) / n && low <= AverageVariance(c, n) <= high
  {
    VarianceSumWithin(c, n, low, high);
    MeanWithin(VarianceSum(c, n), n, low, high);
    VarianceSumIsExact(c, n);
  }

  lemma CellIsBlend(x: int, diagonal: bool, avg: nat, intensity: nat)
    requires 0 - LIMIT <= x <= LIMIT && (diagonal ==> 0 <= x) && avg <= LIMIT && intensity <= SCALE
    ensures Shrunk(x, diagonal, avg, intensity) == Blend(x, if diagonal then avg else 0, intensity)
  {
    if diagonal {
      BlendIsQuotient(x, avg, intensity, LIMIT);
    } else {
      var rest, m := SCALE - intensity, if x >= 0 then x else 0 - x;
      ScaledDown(rest, m);
      assert rest * x == rest * m || rest * x + rest * m == 0;
      FitsAndTruncates(rest * x, rest * m);
    }
  }

  /** For up to 62 assets and every intensity, shrinkage blends each variance with the mean and each covariance with 0. */
  lemma ShrinkageBlends(c: seq<int>, intensity: int, n: nat)
    requires |c| == CELLS && Blendable(c, intensity, n)
    ensures IsBlendOf(ShrunkMatrix(c, intensity, n), c, intensity, n)
  {
    MeanInRange(c, n, 0, LIMIT);
    forall i: nat, j: nat | i <= j < n
      ensures Cell(ShrunkMatrix(c, intensity, n), i, j)
           == Blend(Cell(c, i, j), if i == j then Sum(Diagonal(c, n)) / n else 0, intensity)
    {
      ShrinkTouchesOnce(c, AverageVariance(c, n), intensity, n, 0, 0, i, j);
      CellIsBlend(Cell(c, i, j), i == j, AverageVariance(c, n), intensity);
    }
  }

  /** The inverse of each blended variance, the scale being 1. */
  function BlendedInverses(c: seq<int>, intensity: int, n: nat): (inv: seq<int>)
    requires |c| == CELLS && 0 < n <= MAX_ASSETS
    ensures |inv| == n
  {
    var mean := Sum(Diagonal(c, n)) / n;
    seq(n, i requires 0 <= i < n =>
      var v := Blend(Cell(c, i, i), mean, intensity); if v > 0 then (SCALE * SCALE) / v else 0)
  }

  /** Every weight but the last is the floored share of its inverse blended variance in the sum of all; the last makes up the scale. */
  ghost predicate IsInverseVarianceWeighting(w: seq<int>, c: seq<int>, intensity: int, n: nat)
    requires |c| == CELLS && 0 < n <= MAX_ASSETS && |w| == n
  {
    var inv := BlendedInverses(c, intensity, n);
    && Sum(w) == SCALE && Sum(inv) > 0
    && forall i :: 0 <= i < n - 1 ==> w[i] == (inv[i] * SCALE) / Sum(inv)
  }

  lemma DiagonalIsBlended(c: seq<int>, intensity: int, n: nat)
    requires |c| == CELLS && 0 < n && SafeInput(c, intensity, n)
    ensures Inverses(ShrunkMatrix(c, intensity, n), n) == BlendedInverses(c, intensity, n)
  {
    MeanInRange(c, n, MIN_VARIANCE, LIMIT);
    forall i: nat | i < n
      ensures Cell(ShrunkMatrix(c, intensity, n), i, i) == Blend(Cell(c, i, i), Sum(Diagonal(c, n)) / n, intensity)
    {
      ShrinkTouchesOnce(c, AverageVariance(c, n), intensity, n, 0, 0, i, i);
      CellIsBlend(Cell(c, i, i), true, AverageVariance(c, n), intensity);
    }
  }

  lemma SafeInverses(c: seq<int>, intensity: nat, n: nat)
    requires |c| == CELLS && 0 < n && SafeInput(c, intensity, n)
    ensures var inv: seq<int> := Inverses(ShrunkMatrix(c, intensity, n), n); InRange(inv, LIMIT) && Sum(inv) > 0
  {
    MatrixStaysWithin(c, intensity, n, MIN_VARIANCE, LIMIT);
    var m := ShrunkMatrix(c, intensity, n);
    var inv: seq<int> := Inverses(m, n);
    forall i | 0 <= i < n ensures 0 < inv[i] <= LIMIT {
      InverseInRangeIff(Cell(m, i, i));
      PositiveInverse(Cell(m, i, i));
    }
    PartAtMostSum(inv, LIMIT, 0);
  }

  /** End to end, for variances from 108421 to the limit: the weights of `optimize` in terms of the matrix it is given. */
  lemma OptimalWeightsAre(c: seq<int>, intensity: int, n: nat)
    requires |c| == CELLS && 0 < n && SafeInput(c, intensity, n)
    ensures IsInverseVarianceWeighting(OptimalWeights(c, intensity, n), c, intensity, n)
  {
    var inv: seq<int> := Inverses(ShrunkMatrix(c, intensity, n), n);
    SafeInverses(c, intensity, n);
    DiagonalIsBlended(c, intensity, n);
    WeightsAreSound(inv);
    SharesAreFloors(inv, Sum(inv));
  }

  /** Both facts in the form the optimizer uses before it overwrites its matrix. */
  lemma OptimizeFacts(c: seq<int>, intensity: int, n: nat)
    requires |c| == CELLS && 0 < n <= MAX_ASSETS
    ensures Blendable(c, intensity, n) ==> IsBlendOf(ShrunkMatrix(c, intensity, n), c, intensity, n)
    ensures SafeInput(c, intensity, n) ==>
      Portfolio(OptimalWeights(c, intensity, n)) && IsInverseVarianceWeighting(OptimalWeights(c, intensity, n), c, intensity, n)
  {
    if Blendable(c, intensity, n) {
      ShrinkageBlends(c, intensity, n);
    }
    if SafeInput(c, intensity, n) {
      OptimizeIsSound(c, intensity, n);
      OptimalWeightsAre(c, intensity, n);
    }
  }

  // ---------------------------------------------------------------- the optimizer in place

  class Optimizer {
    const expectedReturns: array<int>
    const covariance: array<int>
    const optimalWeights: array<int>
    var assetCount: nat
    var shrinkageIntensity: int
    var iterations: nat
    var success: bool

    ghost predicate Valid()
      reads this
    {
      && expectedReturns.Length == optimalWeights.Length == MAX_ASSETS && covariance.Length == CELLS
      && expectedReturns != covariance && optimalWeights != covariance && expectedReturns != optimalWeights
      && assetCount <= MAX_ASSETS
    }

    constructor ()
      ensures Valid() && fresh(expectedReturns) && fresh(covariance) && fresh(optimalWeights)
      ensures assetCount == 0 && shrinkageIntensity == SCALE / 2
    {
      expectedReturns := new int[MAX_ASSETS](_ => 0);
      covariance := new int[CELLS](_ => 0);
      optimalWeights := new int[MAX_ASSETS](_ => 0);
      assetCount, shrinkageIntensity, iterations, success := 0, SCALE / 2, 0, false;
    }

    method SetExpectedReturn(asset: nat, value: int)
      requires Valid()
      modifies this`assetCount, expectedReturns
      ensures Valid()
      ensures assetCount == if asset < MAX_ASSETS then Max(old(assetCount), asset + 1) else old(assetCount)
      ensures expectedReturns[..] == if asset < MAX_ASSETS then old(expectedReturns[..])[asset := value] else old(expectedReturns[..])
    {
      if asset < MAX_ASSETS {
        expectedReturns[asset] := value;
        if asset >= assetCount {
          assetCount := asset + 1;
        }
      }
    }

    /**
     A diagonal index is not checked against the number of assets: from 64 to 125 it
     overwrites the variance of asset `125 - i`, and only beyond that the array access
     panics.
     */
    method SetCovariance(i: nat, j: nat, cov: int) returns (panicked: bool)
      requires Valid()
      modifies covariance
      ensures panicked <==> i == j > 125
      ensures i < j < assetCount ==> covariance[..] == SetCell(old(covariance[..]), i, j, cov)
      ensures i == j < MAX_ASSETS ==> covariance[..] == SetCell(old(covariance[..]), i, i, cov)
      ensures i == j && MAX_ASSETS <= i <= 125 ==> covariance[..] == SetCell(old(covariance[..]), 125 - i, 125 - i, cov)
      ensures !(i < j < assetCount) && (i != j || i > 125) ==> covariance[..] == old(covariance[..])
    {
      panicked := false;
      if i < j && j < assetCount {
        IndexInBounds(i, j);
        var idx := CovIndex(i, j);
        if idx < covariance.Length {
          covariance[idx] := cov;
        }
      } else if i == j {
        DiagonalInBoundsIff(i);
        var idx := CovIndex(i, i);
        if idx < 0 || idx >= covariance.Length {
          return true;
        }
        DiagonalAliasIff(i, 125 - i);
        covariance[idx] := cov;
      }
    }

    /** Dividing by an asset count of 0 panics in the source. */
    method ApplyShrinkage()
      requires Valid() && assetCount > 0
      modifies covariance
      ensures covariance[..] == ShrunkMatrix(old(covariance[..]), shrinkageIntensity, assetCount)
      ensures Blendable(old(covariance[..]), shrinkageIntensity, assetCount) ==>
        IsBlendOf(covariance[..], old(covariance[..]), shrinkageIntensity, assetCount)
    {
      ghost var c := covariance[..];
      OptimizeFacts(c, shrinkageIntensity, assetCount);
      var avg := SumVariances();
      avg := TruncDiv(avg, assetCount);
      var n := assetCount;
      for i := 0 to n
        invariant ShrinkFrom(covariance[..], avg, shrinkageIntensity, n, i, i) == ShrinkFrom(c, avg, shrinkageIntensity, n, 0, 0)
      {
        for j := i to n
          invariant ShrinkFrom(covariance[..], avg, shrinkageIntensity, n, i, j) == ShrinkFrom(c, avg, shrinkageIntensity, n, 0, 0)
        {
          ShrinkCell(i, j, avg);
        }
      }
    }

    method ShrinkCell(i: nat, j: nat, avg: int)
      requires Valid() && i <= j < MAX_ASSETS
      modifies covariance
      ensures covariance[..] == SetCell(old(covariance[..]), i, j,
                                        Shrunk(Cell(old(covariance[..]), i, j), i == j, avg, shrinkageIntensity))
    {
      IndexInBounds(i, j);
      var idx := CovIndex(i, j);
      if i == j {
        covariance[idx] := TruncDiv(WrapI64(shrinkageIntensity * avg + (SCALE - shrinkageIntensity) * covariance[idx]), SCALE);
      } else {
        covariance[idx] := TruncDiv(WrapI64((SCALE - shrinkageIntensity) * covariance[idx]), SCALE);
      }
    }

    method SumVariances() returns (total: int)
      requires Valid()
      ensures total == VarianceSum(covariance[..], assetCount)
    {
      total := 0;
      for i := 0 to assetCount
        invariant total == VarianceSum(covariance[..], i)
      {
        IndexInBounds(i, i);
        total := Saturate(total + covariance[CovIndex(i, i)]);
      }
    }

    /** Returns true even when no asset has a positive inverse variance. */
    method Optimize() returns (ok: bool)
      requires Valid()
      modifies this`iterations, this`success, covariance, optimalWeights
      ensures Valid() && ok == (assetCount >= 2)
      ensures !ok ==> covariance[..] == old(covariance[..]) && optimalWeights[..] == old(optimalWeights[..])
      ensures ok ==> covariance[..] == ShrunkMatrix(old(covariance[..]), shrinkageIntensity, assetCount)
      ensures ok ==> optimalWeights[..assetCount] == OptimalWeights(old(covariance[..]), shrinkageIntensity, assetCount)
      ensures ok && SafeInput(old(covariance[..]), shrinkageIntensity, assetCount) ==>
        && Portfolio(optimalWeights[..assetCount])
        && IsInverseVarianceWeighting(optimalWeights[..assetCount], old(covariance[..]), shrinkageIntensity, assetCount)
    {
      if assetCount < 2 {
        return false;
      }
      OptimizeFacts(covariance[..], shrinkageIntensity, assetCount);
      ApplyShrinkage();
      Weigh();
      iterations := iterations + 1;
      success := true;
      ok := true;
    }

    /** Inverse variances, normalised only if their sum is positive. */
    method Weigh()
      requires Valid() && assetCount > 0
      modifies optimalWeights
      ensures optimalWeights[..assetCount] == Weights(Inverses(covariance[..], assetCount))
    {
      var total := InvertVariances();
      if total > 0 {
        Normalize(total);
      }
    }

    method InvertVariances() returns (total: int)
      requires Valid()
      modifies optimalWeights
      ensures optimalWeights[..assetCount] == Inverses(covariance[..], assetCount)
      ensures total == SaturatingSum(Inverses(covariance[..], assetCount))
    {
      ghost var inv: seq<int> := Inverses(covariance[..], assetCount);
      total := 0;
      for i := 0 to assetCount
        invariant forall k :: 0 <= k < i ==> optimalWeights[k] == inv[k]
        invariant total == SaturatingSum(inv[..i])
      {
        assert inv[..i + 1][..i] == inv[..i];
        SaturatingSumFits(inv[..i]);
        var invVar := InvertOne(i);
        total := if invVar > 0 then Saturate(total + invVar) else total;
      }
      assert inv[..assetCount] == inv == optimalWeights[..assetCount];
    }

    method InvertOne(i: nat) returns (invVar: nat)
      requires Valid() && i < assetCount
      modifies optimalWeights
      ensures invVar == InverseVariance(Cell(covariance[..], i, i))
      ensures optimalWeights[..] == old(optimalWeights[..])[i := invVar]
    {
      IndexInBounds(i, i);
      var variance := covariance[CovIndex(i, i)];
      invVar := if variance > 0 then (SCALE * SCALE) / variance else 0;
      optimalWeights[i] := invVar;
    }

    method Normalize(total: int)
      requires Valid() && assetCount > 0 && total > 0 && total == SaturatingSum(optimalWeights[..assetCount])
      modifies optimalWeights
      ensures optimalWeights[..assetCount] == Weights(old(optimalWeights[..assetCount]))
    {
      var weightSum := TakeShares(total);
      var last := assetCount - 1;
      assert optimalWeights[last] == optimalWeights[..assetCount][last];
      optimalWeights[last] := SCALE - (weightSum - optimalWeights[last]);
    }

    method TakeShares(total: int) returns (weightSum: int)
      requires Valid() && total > 0
      modifies optimalWeights
      ensures optimalWeights[..assetCount] == Shares(old(optimalWeights[..assetCount]), total)
      ensures weightSum == SaturatingSum(optimalWeights[..assetCount])
    {
      ghost var inv := optimalWeights[..assetCount];
      ghost var shares := Shares(inv, total);
      weightSum := 0;
      for i := 0 to assetCount
        invariant forall k :: 0 <= k < assetCount ==> optimalWeights[k] == if k < i then shares[k] else inv[k]
        invariant weightSum == SaturatingSum(shares[..i])
      {
        assert shares[..i + 1][..i] == shares[..i];
        optimalWeights[i] := TruncDiv(WrapI64(optimalWeights[i] * SCALE), total);
        weightSum := Saturate(weightSum + optimalWeights[i]);
      }
      assert optimalWeights[..assetCount] == shares == shares[..assetCount];
    }
  }

  lemma SaturatingSumFits(s: seq<int>)
    ensures I64_MIN <= SaturatingSum(s) <= I64_MAX
  {
  }
}
