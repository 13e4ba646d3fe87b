/**
 The token bucket of the rate limiter: refill by elapsed time in 32-bit fixed point,
 clamp to capacity, then take tokens if there are enough. u64 products and sums wrap.
 */
module RateLimiter {
  import opened Machine

  const TIMING_WHEEL_BUCKETS: nat := 1024

  datatype Bucket = Bucket(tokens: nat, lastRefill: nat, capacity: nat, refillRate: nat)

  /** `(elapsed * refill_rate) >> 32` on u64. */
  function RefillAmount(elapsed: nat, rate: nat): nat {
    ((elapsed * rate) % U64) / U32
  }

  /** The whole tokens that accrue in unbounded arithmetic. */
  function WholeTokens(elapsed: nat, rate: nat): nat {
    (elapsed * rate) / U32
  }

  /** `saturating_sub` on the clock readings. */
  function Elapsed(since: nat, now: nat): nat {
    if now >= since then now - since else 0
  }

  /** The balance before the request is served. */
  function Refilled(b: Bucket, now: nat): (r: nat)
    ensures r <= b.capacity
  {
    Min((b.tokens + RefillAmount(Elapsed(b.lastRefill, now), b.refillRate)) % U64, b.capacity)
  }

  /** `try_acquire` on an active bucket: the new bucket and the answer. */
  function Acquire(b: Bucket, now: nat, tokens: nat): (Bucket, bool) {
    var balance := Refilled(b, now);
    if balance >= tokens then (b.(tokens := balance - tokens, lastRefill := now), true)
    else (b.(tokens := balance, lastRefill := now), false)
  }

  datatype Call = Call(now: nat, tokens: nat)

  /** The bucket after a window of calls. */
  function After(b: Bucket, calls: seq<Call>): Bucket {
    if calls == [] then b
    else
      var last := calls[|calls| - 1];
      Acquire(After(b, calls[..|calls| - 1]), last.now, last.tokens).0
  }

  /** Tokens granted over a window of calls. */
  function Granted(b: Bucket, calls: seq<Call>): nat {
    if calls == [] then 0
    else
      var last := calls[|calls| - 1];
      Granted(b, calls[..|calls| - 1])
      + (if Acquire(After(b, calls[..|calls| - 1]), last.now, last.tokens).1 then last.tokens else 0)
  }

  ghost predicate ClockMonotone(calls: seq<Call>) {
    forall i, j :: 0 <= i < j < |calls| ==> calls[i].now <= calls[j].now
  }

  // ---------------------------------------------------------------- the quota

  lemma RefillAtMost(elapsed: nat, rate: nat)
    ensures RefillAmount(elapsed, rate) <= WholeTokens(elapsed, rate)
  {
    DivBounds(elapsed * rate, U64);
    DivMonotone((elapsed * rate) % U64, elapsed * rate, U32);
  }

  lemma RefilledAtMost(b: Bucket, now: nat)
    requires b.lastRefill <= now
    ensures Refilled(b, now) <= b.tokens + WholeTokens(now - b.lastRefill, b.refillRate)
  {
    RefillAtMost(now - b.lastRefill, b.refillRate);
    DivBounds(b.tokens + RefillAmount(now - b.lastRefill, b.refillRate), U64);
  }

  /** What one call grants and leaves is at most what was there and what has accrued. */
  lemma AcquireConserves(b: Bucket, call: Call)
    requires b.lastRefill <= call.now
    ensures var (t, granted) := Acquire(b, call.now, call.tokens);
      && (if granted then call.tokens else 0) + t.tokens <= b.tokens + WholeTokens(call.now - b.lastRefill, b.refillRate)
      && t == b.(tokens := t.tokens, lastRefill := call.now) && t.tokens <= b.capacity
  {
    RefilledAtMost(b, call.now);
  }

  /** Floors of consecutive gaps add up to at most the floor over the whole span. */
  lemma GapsAdd(first: nat, middle: nat, last: nat, rate: nat)
    requires first <= middle <= last
    ensures WholeTokens(middle - first, rate) + WholeTokens(last - middle, rate) <= WholeTokens(last - first, rate)
  {
    var a, b := (middle - first) * rate, (last - middle) * rate;
    assert (last - first) * rate == a + b;
    DivBounds(a, U32);
    DivBounds(b, U32);
    DivMonotone((a / U32 + b / U32) * U32, a + b, U32);
    DivUnique((a / U32 + b / U32) * U32, U32, a / U32 + b / U32, 0);
  }

  /**
   Whatever the call pattern, over any window the tokens granted plus those left are at
   most the capacity plus what accrues between the first and the last call.
   */
  lemma {:induction false} QuotaHolds(b: Bucket, calls: seq<Call>)
    requires calls != [] && ClockMonotone(calls)
    ensures var t := After(b, calls);
      && t.capacity == b.capacity && t.refillRate == b.refillRate
      && t.lastRefill == calls[|calls| - 1].now && t.tokens <= b.capacity
      && Granted(b, calls) + t.tokens
         <= b.capacity + WholeTokens(calls[|calls| - 1].now - calls[0].now, b.refillRate)
    decreases |calls|
  {
    var n := |calls| - 1;
    var shorter, last := calls[..n], calls[n];
    if n == 0 {
      assert shorter == [];
    } else {
      QuotaHolds(b, shorter);
      var s := After(b, shorter);
      AcquireConserves(s, last);
      GapsAdd(calls[0].now, s.lastRefill, last.now, b.refillRate);
    }
  }

  // ---------------------------------------------------------------- when refills are lost

  /** The refill is what accrued exactly while the product fits a u64. */
  lemma RefillExactIff(elapsed: nat, rate: nat)
    ensures RefillAmount(elapsed, rate) == WholeTokens(elapsed, rate) <==> elapsed * rate < U64
  {
    var x := elapsed * rate;
    if x < U64 {
      DivUnique(x, U64, 0, x);
    } else {
      DivMonotone(U64, x, U32);
      DivUnique(U64, U32, U32, 0);
      DivBounds(x % U64, U32);
    }
  }

  /** The refill timestamp after the calls. */
  function LastTime(b: Bucket, calls: seq<Call>): nat {
    if calls == [] then b.lastRefill else calls[|calls| - 1].now
  }

  predicate ShortGap(since: nat, now: nat, rate: nat) {
    since <= now && (now - since) * rate < U32
  }

  /** Every gap between calls, the first one included, accrues less than one whole token. */
  ghost predicate TooFastToRefill(b: Bucket, calls: seq<Call>) {
    calls == [] ||
    (var n := |calls| - 1;
     TooFastToRefill(b, calls[..n]) && ShortGap(LastTime(b, calls[..n]), calls[n].now, b.refillRate))
  }

  lemma ShortGapAddsNothing(elapsed: nat, rate: nat)
    requires elapsed * rate < U32
    ensures RefillAmount(elapsed, rate) == 0
  {
    DivUnique(elapsed * rate, U64, 0, elapsed * rate);
    DivUnique(elapsed * rate, U32, 0, elapsed * rate);
  }

  lemma BalanceUnchanged(b: Bucket, now: nat)
    requires b.tokens <= b.capacity < U64
    requires ShortGap(b.lastRefill, now, b.refillRate)
    ensures Refilled(b, now) == b.tokens
  {
    ShortGapAddsNothing(now - b.lastRefill, b.refillRate);
    DivUnique(b.tokens, U64, 0, b.tokens);
  }

  /**
   Each call moves the refill timestamp but drops the fraction accrued, so a client that
   polls faster than one token accrues is never refilled: over the whole run it is granted
   only tokens it started with.
   */
  lemma {:induction false} FastPollingStarves(b: Bucket, calls: seq<Call>)
    requires b.tokens <= b.capacity < U64 && TooFastToRefill(b, calls)
    ensures var t := After(b, calls);
      && Granted(b, calls) + t.tokens == b.tokens
      && t.capacity == b.capacity && t.refillRate == b.refillRate
      && t.lastRefill == LastTime(b, calls)
    decreases |calls|
  {
    if calls != [] {
      var n := |calls| - 1;
      var shorter, last := calls[..n], calls[n];
      FastPollingStarves(b, shorter);
      BalanceUnchanged(After(b, shorter), last.now);
    }
  }

  // ---------------------------------------------------------------- when a bucket is refilled

  /** What accrued since the last call, in 2^-32 tokens. */
  function Accrued(b: Bucket, now: nat): nat {
    Elapsed(b.lastRefill, now) * b.refillRate
  }

  /** The room a balance needs so that adding a refill cannot wrap. */
  ghost predicate Roomy(b: Bucket) {
    b.tokens <= b.capacity < U64 - U32
  }

  lemma RefillIs(b: Bucket, now: nat)
    requires Roomy(b) && Accrued(b, now) < U64
    ensures Refilled(b, now) == Min(b.tokens + Accrued(b, now) / U32, b.capacity)
  {
    var x := Accrued(b, now);
    RefillExactIff(Elapsed(b.lastRefill, now), b.refillRate);
    DivBounds(x, U32);
    DivUnique(b.tokens + x / U32, U64, 0, b.tokens + x / U32);
  }

  /** A call adds tokens if and only if the bucket is not full and a whole token has accrued since the last call. */
  lemma RefillAddsIff(b: Bucket, now: nat)
    requires Roomy(b) && Accrued(b, now) < U64
    ensures Refilled(b, now) >= b.tokens
    ensures Refilled(b, now) > b.tokens <==> b.tokens < b.capacity && Accrued(b, now) >= U32
  {
    RefillIs(b, now);
    DivBounds(Accrued(b, now), U32);
  }

  /** No gap of the window accrues more than a u64 product holds. */
  ghost predicate GapsFit(b: Bucket, calls: seq<Call>) {
    calls == [] ||
    (var n := |calls| - 1;
     GapsFit(b, calls[..n]) && Accrued(After(b, calls[..n]), calls[n].now) < U64)
  }

  /** Every call finds a full bucket or comes before a whole token has accrued. */
  ghost predicate NeverRefilled(b: Bucket, calls: seq<Call>) {
    calls == [] ||
    (var n := |calls| - 1;
     var s := After(b, calls[..n]);
     NeverRefilled(b, calls[..n]) && (s.tokens == s.capacity || Accrued(s, calls[n].now) < U32))
  }

  /**
   Over any window, whatever the clock does, the tokens granted plus those left are never
   fewer than the bucket started with, and are exactly those if and only if every call
   finds a full bucket or comes before a whole token has accrued since the call before it.
   */
  lemma {:induction false} StarvesIff(b: Bucket, calls: seq<Call>)
    requires Roomy(b) && GapsFit(b, calls)
    ensures Roomy(After(b, calls)) && After(b, calls).capacity == b.capacity
    ensures Granted(b, calls) + After(b, calls).tokens >= b.tokens
    ensures Granted(b, calls) + After(b, calls).tokens == b.tokens <==> NeverRefilled(b, calls)
    decreases |calls|
  {
    if calls != [] {
      var n := |calls| - 1;
      StarvesIff(b, calls[..n]);
      RefillAddsIff(After(b, calls[..n]), calls[n].now);
    }
  }

  /** The balance a call leaves: what there was and what accrued, up to the capacity, less what was granted. */
  lemma AcquireLeaves(b: Bucket, now: nat, tokens: nat)
    requires Roomy(b) && b.lastRefill <= now && (now - b.lastRefill) * b.refillRate < U64
    ensures var (t, granted) := Acquire(b, now, tokens);
      && t.tokens + (if granted then tokens else 0)
         == Min(b.tokens + ((now - b.lastRefill) * b.refillRate) / U32, b.capacity)
      && t == b.(tokens := t.tokens, lastRefill := now)
  {
    RefillIs(b, now);
  }

  /** A clock that stands still or goes back adds nothing, and is taken over all the same. */
  lemma BackwardClockAddsNothing(b: Bucket, now: nat, tokens: nat)
    requires Roomy(b) && b.tokens <= b.capacity && now <= b.lastRefill
    ensures var (t, granted) := Acquire(b, now, tokens);
      && (granted <==> tokens <= b.tokens) && t.lastRefill == now
      && t.tokens == if granted then b.tokens - tokens else b.tokens
  {
    RefillIs(b, now);
  }

  /** A request is refused exactly when the balance it finds is smaller. */
  lemma RefusedIff(b: Bucket, now: nat, tokens: nat)
    requires Roomy(b) && Accrued(b, now) < U64
    ensures !Acquire(b, now, tokens).1 <==> b.capacity < tokens || b.tokens + Accrued(b, now) / U32 < tokens
  {
    RefillIs(b, now);
  }

  // ---------------------------------------------------------------- the limiter in place

  class Limiter {
    const buckets: array<Bucket>
    var isActive: bool
    var circuitOpen: bool
    var totalAllowed: nat

    constructor ()
      ensures fresh(buckets) && buckets.Length == TIMING_WHEEL_BUCKETS
      ensures isActive && !circuitOpen && totalAllowed == 0
      ensures forall i :: 0 <= i < buckets.Length ==> buckets[i] == Bucket(0, 0, 0, 0)
    {
      buckets := new Bucket[TIMING_WHEEL_BUCKETS](_ => Bucket(0, 0, 0, 0));
      isActive, circuitOpen, totalAllowed := true, false, 0;
    }

    /** The refill timestamp is left as it was. */
    method InitBucket(idx: nat, capacity: nat, refillRate: nat)
      requires buckets.Length == TIMING_WHEEL_BUCKETS
      modifies buckets
      ensures idx >= TIMING_WHEEL_BUCKETS ==> buckets[..] == old(buckets[..])
      ensures idx < TIMING_WHEEL_BUCKETS ==>
        buckets[..] == old(buckets[..])[idx := Bucket(capacity, old(buckets[idx]).lastRefill, capacity, refillRate)]
    {
      if idx >= TIMING_WHEEL_BUCKETS {
        return;
      }
      buckets[idx] := buckets[idx].(capacity := capacity);
      buckets[idx] := buckets[idx].(refillRate := refillRate);
      buckets[idx] := buckets[idx].(tokens := capacity);
    }

    method TryAcquire(bucketIdx: nat, tokens: nat, now: nat) returns (granted: bool)
      requires buckets.Length == TIMING_WHEEL_BUCKETS
      modifies this`totalAllowed, buckets
      ensures !isActive ==> granted && buckets[..] == old(buckets[..]) && totalAllowed == old(totalAllowed)
      ensures isActive && circuitOpen ==> !granted && buckets[..] == old(buckets[..]) && totalAllowed == old(totalAllowed)
      ensures isActive && !circuitOpen ==>
        var idx := bucketIdx % TIMING_WHEEL_BUCKETS;
        && granted == Acquire(old(buckets[idx]), now, tokens).1
        && buckets[..] == old(buckets[..])[idx := Acquire(old(buckets[idx]), now, tokens).0]
        && totalAllowed == old(totalAllowed) + (if granted then 1 else 0)
    {
      if !isActive {
        return true;
      }
      if circuitOpen {
        return false;
      }
      var idx := bucketIdx % TIMING_WHEEL_BUCKETS;
      var bucket := buckets[idx];
      var refilled := Refilled(bucket, now);
      buckets[idx] := buckets[idx].(tokens := refilled);
      buckets[idx] := buckets[idx].(lastRefill := now);
      var canConsume := if refilled >= tokens then 1 else 0;
      var newTokens := refilled - tokens * canConsume;
      buckets[idx] := buckets[idx].(tokens := newTokens);
      totalAllowed := totalAllowed + canConsume;
      granted := canConsume != 0;
    }

    method Reset()
      requires buckets.Length == TIMING_WHEEL_BUCKETS
      modifies buckets
      ensures forall i :: 0 <= i < buckets.Length ==> buckets[i] == old(buckets[i]).(tokens := old(buckets[i]).capacity)
    {
      for i := 0 to TIMING_WHEEL_BUCKETS
        invariant forall j :: 0 <= j < i ==> buckets[j] == old(buckets[j]).(tokens := old(buckets[j]).capacity)
        invariant forall j :: i <= j < buckets.Length ==> buckets[j] == old(buckets[j])
      {
        buckets[i] := buckets[i].(tokens := buckets[i].capacity);
      }
    }
  }
}
