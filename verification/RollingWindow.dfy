/**
 The circular price window shared by the streaming indicators: which price is evicted, when
 a running sum kept with saturating arithmetic equals the recomputed one, and that this is
 so exactly while a full window of the largest admitted price fits the register in which the
 sum is kept.
 */
module RollingWindow {
  import opened Machine

  const MAX_WINDOW: nat := 512

  /** The largest magnitude of prices of which a window of `p` cannot saturate an i64 sum. */
  function PriceLimit(p: nat): (bound: nat)
    requires p > 0
    ensures p * bound <= I64_MAX < p * (bound + 1)
  {
    DivBounds(I64_MAX, p);
    I64_MAX / p
  }

  /** The last `min(|h|, p)` prices. */
  function Window(h: seq<int>, p: nat): (w: seq<int>)
    ensures |w| == Min(|h|, p)
  {
    h[|h| - Min(|h|, p)..]
  }

  function SumOf(s: seq<int>): int {
    if s == [] then 0 else SumOf(s[..|s| - 1]) + s[|s| - 1]
  }

  function Square(x: int): int {
    x * x
  }

  function Squares(s: seq<int>): (q: seq<int>)
    ensures |q| == |s| && forall i :: 0 <= i < |s| ==> q[i] == Square(s[i])
  {
    if s == [] then [] else Squares(s[..|s| - 1]) + [Square(s[|s| - 1])]
  }

  lemma SquaresSnoc(s: seq<int>, x: int)
    ensures Squares(s + [x]) == Squares(s) + [Square(x)]
  {
  }

  lemma {:induction false} SumFront(s: seq<int>)
    requires s != []
    ensures SumOf(s) == s[0] + SumOf(s[1..])
  {
    if |s| > 1 {
      var t := s[..|s| - 1];
      SumFront(t);
      assert t[1..] == s[1..][..|s| - 2];
    }
  }

  /** One more price: the window drops the oldest price once it is full. */
  lemma WindowPush(h: seq<int>, p: nat, x: int)
    requires p > 0
    ensures Window(h + [x], p) == (if |h| < p then h else Window(h, p)[1..]) + [x]
    ensures |h| >= p ==> Window(h, p) != [] && Window(h, p)[0] == h[|h| - p]
    ensures SumOf(Window(h + [x], p)) == SumOf(Window(h, p)) + x - (if |h| < p then 0 else h[|h| - p])
  {
    var w := Window(h, p);
    var kept := if |h| < p then h else w[1..];
    assert Window(h + [x], p) == kept + [x];
    assert (kept + [x])[..|kept|] == kept;
    if |h| >= p {
      SumFront(w);
    } else {
      assert w == h;
    }
  }

  /** `saturating_add`/`saturating_sub` in a register that clamps to `[-limit - 1, limit]`. */
  function Clamp(x: int, limit: int): int {
    if x > limit then limit else if x < -limit - 1 then -limit - 1 else x
  }

  /** One slide of the register: a full window subtracts its oldest value first. */
  function Slide(s: int, full: bool, oldest: int, x: int, limit: int): int {
    Clamp((if full then Clamp(s - oldest, limit) else s) + x, limit)
  }

  /** The subtraction saturates on its own, before the new value is added. */
  lemma SubtractionSaturates(x: nat, limit: nat)
    requires x <= limit
    ensures Slide(0 - limit - 1, true, limit, x, limit) == 0 - limit - 1 + x
    ensures Slide(limit, true, 0 - limit - 1, 0 - x, limit) == limit - x
    ensures Slide(limit, false, limit, x, limit) == limit && Slide(0 - limit - 1, false, 0, 0 - x, limit) == 0 - limit - 1
  {
  }

  /** The value that leaves a full window next. */
  function Oldest(h: seq<int>, p: nat): int {
    if 0 < p <= |h| then h[|h| - p] else 0
  }

  /** The running sum as it is kept: subtract the evicted value, then add the new one. */
  function RunningSum(h: seq<int>, p: nat, limit: int): int
    requires p > 0
  {
    if h == [] then 0
    else
      var shorter, x := h[..|h| - 1], h[|h| - 1];
      Slide(RunningSum(shorter, p, limit), |shorter| >= p, Oldest(shorter, p), x, limit)
  }

  ghost predicate Bounded(h: seq<int>, bound: int) {
    forall i :: 0 <= i < |h| ==> -bound <= h[i] <= bound
  }

  lemma {:induction false} SumBounded(s: seq<int>, bound: int)
    requires 0 <= bound && Bounded(s, bound)
    ensures -(|s| * bound) <= SumOf(s) <= |s| * bound
  {
    if s != [] {
      SumBounded(s[..|s| - 1], bound);
    }
  }

  lemma ClampExact(x: int, limit: int)
    requires 0 - limit <= x <= limit
    ensures Clamp(x, limit) == x
  {
  }

  lemma RunningSumSnoc(h: seq<int>, x: int, p: nat, limit: int)
    requires p > 0
    ensures RunningSum(h + [x], p, limit) == Slide(RunningSum(h, p, limit), |h| >= p, Oldest(h, p), x, limit)
  {
    assert (h + [x])[..|h|] == h;
  }

  lemma RunningSumStep(h: seq<int>, x: int, p: nat, limit: int, bound: int)
    requires 0 < p && 0 <= bound && p * bound <= limit && Bounded(h, bound) && Bounded(h + [x], bound)
    requires RunningSum(h, p, limit) == SumOf(Window(h, p))
    ensures RunningSum(h + [x], p, limit) == SumOf(Window(h + [x], p))
  {
    RunningSumSnoc(h, x, p, limit);
    WindowPush(h, p, x);
    WindowSumFits(h + [x], p, limit, bound);
    EvictionFits(h, p, limit, bound);
    ClampExact(SumOf(Window(h + [x], p)), limit);
    if |h| >= p {
      ClampExact(SumOf(Window(h, p)) - h[|h| - p], limit);
    }
  }

  /**
   While `p` values cannot fill the register, the running sum is the sum recomputed over
   the window, however long the history.
   */
  lemma {:induction false} RunningSumExact(h: seq<int>, p: nat, limit: int, bound: int)
    requires 0 < p && 0 <= bound && p * bound <= limit && Bounded(h, bound)
    ensures RunningSum(h, p, limit) == SumOf(Window(h, p))
  {
    if h != [] {
      var shorter, x := h[..|h| - 1], h[|h| - 1];
      assert h == shorter + [x];
      RunningSumExact(shorter, p, limit, bound);
      RunningSumStep(shorter, x, p, limit, bound);
    }
  }

  /** For every history of values up to `bound`, the running sum is the window's sum. */
  ghost predicate SumAlwaysExact(p: nat, limit: int, bound: nat)
    requires p > 0
  {
    forall h: seq<int> :: Bounded(h, bound) ==> RunningSum(h, p, limit) == SumOf(Window(h, p))
  }

  /** `n` copies of one price. */
  function Constant(c: int, n: nat): (h: seq<int>)
    ensures |h| == n && forall i :: 0 <= i < n ==> h[i] == c
  {
    seq(n, _ => c)
  }

  lemma {:induction false} SumOfConstant(h: seq<int>, c: int)
    requires forall i :: 0 <= i < |h| ==> h[i] == c
    ensures SumOf(h) == |h| * c
  {
    if h != [] {
      SumOfConstant(h[..|h| - 1], c);
      assert (|h| - 1) * c + c == |h| * c;
    }
  }

  /** `p` copies of the bound: the window's sum is `p * bound`, the register is at most the limit. */
  lemma FullWindow(p: nat, limit: int, bound: nat)
    requires p > 0 && 0 <= limit
    ensures var h := Constant(bound, p);
      Bounded(h, bound) && Window(h, p) == h && SumOf(h) == p * bound && RunningSum(h, p, limit) <= limit
  {
    SumOfConstant(Constant(bound, p), bound);
  }

  /** The running sum is exact for all histories if and only if a full window cannot exceed the register. */
  lemma RunningSumExactIff(p: nat, limit: int, bound: nat)
    requires p > 0 && 0 <= limit
    ensures SumAlwaysExact(p, limit, bound) <==> p * bound <= limit
  {
    if p * bound <= limit {
      forall h: seq<int> | Bounded(h, bound)
        ensures RunningSum(h, p, limit) == SumOf(Window(h, p))
      {
        RunningSumExact(h, p, limit, bound);
      }
    } else {
      FullWindow(p, limit, bound);
      assert Bounded(Constant(bound, p), bound);
    }
  }

  /** Between the subtraction and the addition the register holds at most `p - 1` values. */
  lemma EvictionFits(h: seq<int>, p: nat, limit: int, bound: int)
    requires 0 < p && 0 <= bound && p * bound <= limit && Bounded(h, bound)
    ensures |h| >= p ==> -limit <= SumOf(Window(h, p)) - h[|h| - p] <= limit
  {
    if |h| >= p {
      var rest := Window(h, p)[1..];
      SumFront(Window(h, p));
      SumBounded(rest, bound);
      MulMonotone(|rest|, p, bound);
    }
  }

  lemma WindowSumFits(h: seq<int>, p: nat, limit: int, bound: int)
    requires 0 <= bound && p * bound <= limit && Bounded(h, bound)
    ensures -limit <= SumOf(Window(h, p)) <= limit
  {
    SumBounded(Window(h, p), bound);
    MulMonotone(|Window(h, p)|, p, bound);
  }

  /** The circular buffer holds the window: price number `k` sits in slot `k mod p`. */
  ghost predicate Buffered(buffer: seq<int>, h: seq<int>, p: nat)
    requires 0 < p <= |buffer|
  {
    forall k: nat :: |h| - p <= k < |h| ==> buffer[Slot(k, p)] == h[k]
  }

  function Slot(k: nat, p: nat): (i: nat)
    requires p > 0
    ensures i < p
  {
    k % p
  }

  /** The slot about to be overwritten holds the price that leaves the window. */
  lemma OldestInSlot(buffer: seq<int>, h: seq<int>, p: nat)
    requires 0 < p <= |buffer| && p <= |h| && Buffered(buffer, h, p)
    ensures buffer[Slot(|h|, p)] == h[|h| - p]
  {
    ModShift(|h| - p, 1, p);
    assert Slot(|h| - p, p) == Slot(|h|, p);
  }

  lemma BufferPush(buffer: seq<int>, h: seq<int>, p: nat, x: int)
    requires 0 < p <= |buffer| && Buffered(buffer, h, p)
    ensures Buffered(buffer[Slot(|h|, p) := x], h + [x], p)
  {
    forall k: nat | |h| + 1 - p <= k < |h|
      ensures Slot(k, p) != Slot(|h|, p)
    {
      ModDistinct(k, |h|, p);
    }
  }
}
