/** The bump pool of one NUMA node, allocated from by any number of threads. */
module NumaAllocator {
  import opened Machine
  import opened BitOps

  // Each thread runs the load / compute / compare-and-swap loop of `allocate`, and a reset may
  // fall between any two steps. Machine words have `w` bits (64 on the target) and every
  // addition wraps.

  /** `(current + align - 1) & !(align - 1)` for `align == 2^k`, in wrapping arithmetic on `w` bits. */
  function AlignedOffset(w: nat, current: nat, k: nat): nat
    requires k < w
  {
    Pow2Strict(k, w);
    And(WrapAdd(current, Pow2(k) - 1, Pow2(w)), Not(w, Pow2(k) - 1))
  }

  function NewOffset(w: nat, current: nat, size: nat, k: nat): nat
    requires k < w
  {
    WrapAdd(AlignedOffset(w, current, k), size, Pow2(w))
  }

  /** An addition in a word of `m` values. */
  function WrapAdd(a: nat, b: nat, m: nat): nat
    requires m > 0
  {
    (a + b) % m
  }

  datatype Grant = Grant(start: nat, size: nat, k: nat)

  /** A thread inside `allocate`. */
  datatype Thread =
    | Outside
    | Computing(size: nat, k: nat, current: nat)   // holds a possibly stale offset
    | Granted(size: nat)                           // before total_allocated is bumped

  datatype State = State(
    w: nat,
    poolSize: nat,
    offset: nat,
    totalAllocated: nat,
    threads: seq<Thread>,
    grants: seq<Grant>,    // history: granted since the last reset
    grantedBytes: nat)     // history: bytes ever granted

  datatype Step =
    | Begin(thread: nat, size: nat, k: nat)
    | TrySwap(thread: nat, spurious: bool)
    | CountBytes(thread: nat)
    | Reset

  function Init(w: nat, poolSize: nat, threadCount: nat): State {
    State(w, poolSize, 0, 0, seq(threadCount, _ => Outside), [], 0)
  }

  predicate Enabled(s: State, step: Step) {
    match step
    case Begin(i, size, k) => i < |s.threads| && s.threads[i].Outside? && k < s.w
    case TrySwap(i, _) => i < |s.threads| && s.threads[i].Computing? && s.threads[i].k < s.w
    case CountBytes(i) => i < |s.threads| && s.threads[i].Granted?
    case Reset => true
  }

  /** One atomic step. A weak compare-and-swap may fail although the offset matches. */
  function Apply(s: State, step: Step): State
    requires Enabled(s, step)
  {
    match step
    case Begin(i, size, k) => s.(threads := s.threads[i := Computing(size, k, s.offset)])
    case TrySwap(i, spurious) =>
      var Computing(size, k, current) := s.threads[i];
      var aligned, newOffset := AlignedOffset(s.w, current, k), NewOffset(s.w, current, size, k);
      if newOffset > s.poolSize then s.(threads := s.threads[i := Outside])
      else if s.offset != current || spurious then s.(threads := s.threads[i := Computing(size, k, s.offset)])
      else s.(offset := newOffset,
              threads := s.threads[i := Granted(size)],
              grants := s.grants + [Grant(aligned, size, k)],
              grantedBytes := s.grantedBytes + size)
    case CountBytes(i) =>
      s.(totalAllocated := s.totalAllocated + s.threads[i].size, threads := s.threads[i := Outside])
    case Reset => s.(offset := 0, grants := [])
  }

  function Run(s: State, steps: seq<Step>): Option<State>
    decreases |steps|
  {
    if steps == [] then Some(s)
    else if !Enabled(s, steps[0]) then None
    else Run(Apply(s, steps[0]), steps[1..])
  }

  // ---------------------------------------------------------------- one grant

  lemma MaskOfSum(w: nat, current: nat, k: nat)
    requires k < w && current + Pow2(k) - 1 < Pow2(w)
    ensures Pow2(k) - 1 < Pow2(w)
    ensures AlignedOffset(w, current, k) == And(current + (Pow2(k) - 1), Not(w, Pow2(k) - 1))
  {
    Pow2Strict(k, w);
    WrapOfSum(current, Pow2(k) - 1, Pow2(w));
  }

  /** Without wrap-around the mask expression is round-up. */
  lemma MaskIsRoundUp(w: nat, current: nat, k: nat)
    requires k < w && current + Pow2(k) - 1 < Pow2(w)
    ensures AlignedOffset(w, current, k) == RoundUp(current, Pow2(k))
  {
    MaskOfSum(w, current, k);
    MaskRoundsUp(w, k, current);
  }

  /** When the first addition wraps, the mask leaves nothing. */
  lemma WrappedMaskIsZero(w: nat, current: nat, k: nat)
    requires k < w && current < Pow2(w) <= current + Pow2(k) - 1
    ensures AlignedOffset(w, current, k) == 0
  {
    Pow2Strict(k, w);
    var x := current + Pow2(k) - 1 - Pow2(w);
    WrapOnceOver(current, Pow2(k) - 1, Pow2(w));
    MaskClearsLow(w, k, x);
    DivUnique(x, Pow2(k), 0, x);
  }

  /** ... although the aligned offset that was meant lies past the end of the word. */
  lemma WrappedRoundUpIsHuge(w: nat, current: nat, k: nat)
    requires k < w && current < Pow2(w) <= current + Pow2(k) - 1
    ensures RoundUp(current, Pow2(k)) >= Pow2(w)
  {
    Pow2Divides(k, w);
    if RoundUp(current, Pow2(k)) < Pow2(w) {
      MultiplesApart(RoundUp(current, Pow2(k)), Pow2(w), Pow2(k));
    }
  }

  lemma MultiplesApart(a: nat, b: nat, m: nat)
    requires m > 0 && a % m == 0 && b % m == 0 && a < b
    ensures a + m <= b
  {
    var q := b / m - a / m;
    assert b - a == q * m;
    if q <= 0 {
      MulMonotone(q, 0, m);
    } else {
      MulMonotone(1, q, m);
    }
  }

  lemma {:induction false} Pow2Divides(k: nat, w: nat)
    requires k <= w
    ensures Pow2(w) % Pow2(k) == 0
  {
    if k < w {
      Pow2Divides(k, w - 1);
      var q := Pow2(w - 1) / Pow2(k);
      assert Pow2(w - 1) == q * Pow2(k);
      DivUnique(Pow2(w), Pow2(k), 2 * q, 0);
    } else {
      DivUnique(Pow2(w), Pow2(k), 1, 0);
    }
  }

  /** The end of the range that a request really needs. */
  function TrueEnd(current: nat, size: nat, k: nat): nat {
    RoundUp(current, Pow2(k)) + size
  }

  lemma AlignedValue(w: nat, current: nat, k: nat)
    requires k < w && current < Pow2(w)
    ensures AlignedOffset(w, current, k) == if RoundUp(current, Pow2(k)) < Pow2(w) then RoundUp(current, Pow2(k)) else 0
    ensures RoundUp(current, Pow2(k)) >= Pow2(w) ==> 0 < current
  {
    if current + Pow2(k) - 1 < Pow2(w) {
      MaskIsRoundUp(w, current, k);
    } else {
      WrappedMaskIsZero(w, current, k);
      WrappedRoundUpIsHuge(w, current, k);
      Pow2Strict(k, w);
    }
  }

  lemma NewValue(w: nat, current: nat, size: nat, k: nat)
    requires k < w && current < Pow2(w) && TrueEnd(current, size, k) < Pow2(w)
    ensures NewOffset(w, current, size, k) == TrueEnd(current, size, k)
  {
    AlignedValue(w, current, k);
    WrapOfSum(RoundUp(current, Pow2(k)), size, Pow2(w));
  }

  /**
   A request that passes the exhaustion test gets a range beyond everything granted so
   far and inside the pool exactly when its true end fits in a machine word.
   */
  lemma GrantSoundIff(w: nat, poolSize: nat, current: nat, size: nat, k: nat)
    requires k < w && current <= poolSize < Pow2(w)
    requires NewOffset(w, current, size, k) <= poolSize
    ensures current <= AlignedOffset(w, current, k) && AlignedOffset(w, current, k) + size <= poolSize
      <==> TrueEnd(current, size, k) < Pow2(w)
  {
    AlignedValue(w, current, k);
    if TrueEnd(current, size, k) < Pow2(w) {
      NewValue(w, current, size, k);
    }
  }

  lemma WrapOfSum(a: nat, b: nat, m: nat)
    requires a + b < m
    ensures WrapAdd(a, b, m) == a + b
  {
    DivUnique(a + b, m, 0, a + b);
  }

  lemma WrapOnceOver(a: nat, b: nat, m: nat)
    requires a < m && b < m <= a + b
    ensures WrapAdd(a, b, m) == a + b - m
  {
    DivUnique(a + b, m, 1, a + b - m);
  }

  /** The failing family: a range that runs off the word moves the shared offset backwards. */
  lemma OverlongRequestRewinds(w: nat, current: nat, size: nat, k: nat)
    requires k < w && current < Pow2(w) && size < Pow2(w)
    requires RoundUp(current, Pow2(k)) < Pow2(w) <= TrueEnd(current, size, k)
    ensures NewOffset(w, current, size, k) == TrueEnd(current, size, k) - Pow2(w) < AlignedOffset(w, current, k)
  {
    AlignedValue(w, current, k);
    WrapOnceOver(RoundUp(current, Pow2(k)), size, Pow2(w));
  }

  lemma RoundUpMonotone(a: nat, b: nat, m: nat)
    requires m > 0 && a <= b
    ensures RoundUp(a, m) <= RoundUp(b, m)
  {
    if RoundUp(b, m) < RoundUp(a, m) {
      MultiplesApart(RoundUp(b, m), RoundUp(a, m), m);
    }
  }

  // ---------------------------------------------------------------- every interleaving

  /** What a caller can check before asking: the request fits a word wherever the offset is. */
  predicate Reasonable(w: nat, poolSize: nat, size: nat, k: nat) {
    k < w && TrueEnd(poolSize, size, k) < Pow2(w)
  }

  function End(g: Grant): nat {
    g.start + g.size
  }

  function Pending(threads: seq<Thread>): nat {
    if threads == [] then 0
    else
      var last := threads[|threads| - 1];
      Pending(threads[..|threads| - 1]) + (if last.Granted? then last.size else 0)
  }

  lemma {:induction false} PendingUpdate(threads: seq<Thread>, i: nat, t: Thread)
    requires i < |threads|
    ensures Pending(threads[i := t]) + (if threads[i].Granted? then threads[i].size else 0)
         == Pending(threads) + (if t.Granted? then t.size else 0)
  {
    var n := |threads| - 1;
    if i < n {
      assert threads[i := t][..n] == threads[..n][i := t];
      PendingUpdate(threads[..n], i, t);
    } else {
      assert threads[i := t][..n] == threads[..n];
    }
  }

  ghost predicate Inv(s: State) {
    && s.offset <= s.poolSize < Pow2(s.w)
    && (forall i :: 0 <= i < |s.threads| && s.threads[i].Computing? ==>
          s.threads[i].current <= s.poolSize && Reasonable(s.w, s.poolSize, s.threads[i].size, s.threads[i].k))
    && (forall i :: 0 <= i < |s.grants| ==>
          End(s.grants[i]) <= s.offset && s.grants[i].start % Pow2(s.grants[i].k) == 0)
    && (forall i, j :: 0 <= i < j < |s.grants| ==> End(s.grants[i]) <= s.grants[j].start)
    && s.totalAllocated + Pending(s.threads) == s.grantedBytes
  }

  /** What a reasonable request computes from any offset in the pool. */
  lemma ReasonableValues(w: nat, poolSize: nat, current: nat, size: nat, k: nat)
    requires current <= poolSize && Reasonable(w, poolSize, size, k)
    ensures current < Pow2(w) && AlignedOffset(w, current, k) == RoundUp(current, Pow2(k))
    ensures NewOffset(w, current, size, k) == TrueEnd(current, size, k)
  {
    RoundUpMonotone(current, poolSize, Pow2(k));
    AlignedValue(w, current, k);
    NewValue(w, current, size, k);
  }

  lemma SwapComputes(s: State, i: nat)
    requires Inv(s) && i < |s.threads| && s.threads[i].Computing?
    ensures var Computing(size, k, current) := s.threads[i];
      && AlignedOffset(s.w, current, k) == RoundUp(current, Pow2(k))
      && NewOffset(s.w, current, size, k) == TrueEnd(current, size, k)
      && current <= AlignedOffset(s.w, current, k) && AlignedOffset(s.w, current, k) % Pow2(k) == 0
  {
    var Computing(size, k, current) := s.threads[i];
    ReasonableValues(s.w, s.poolSize, current, size, k);
  }

  lemma SwapKeepsInv(s: State, step: Step)
    requires Inv(s) && Enabled(s, step) && step.TrySwap?
    ensures Inv(Apply(s, step)) && Apply(s, step).offset >= s.offset
  {
    SwapComputes(s, step.thread);
    PendingUpdate(s.threads, step.thread, Apply(s, step).threads[step.thread]);
  }

  lemma StepKeepsInv(s: State, step: Step)
    requires Inv(s) && Enabled(s, step)
    requires step.Begin? ==> Reasonable(s.w, s.poolSize, step.size, step.k)
    ensures Inv(Apply(s, step)) && Apply(s, step).poolSize == s.poolSize && Apply(s, step).w == s.w
    ensures step.Reset? || Apply(s, step).offset >= s.offset
  {
    if step.TrySwap? {
      SwapKeepsInv(s, step);
    } else if !step.Reset? {
      PendingUpdate(s.threads, step.thread, Apply(s, step).threads[step.thread]);
    }
  }

  lemma {:induction false} NothingPending(n: nat)
    ensures Pending(seq(n, _ => Outside)) == 0
  {
    if n > 0 {
      assert seq(n, _ => Outside)[..n - 1] == seq(n - 1, _ => Outside);
      NothingPending(n - 1);
    }
  }

  ghost predicate AllReasonable(steps: seq<Step>, w: nat, poolSize: nat) {
    forall i :: 0 <= i < |steps| && steps[i].Begin? ==> Reasonable(w, poolSize, steps[i].size, steps[i].k)
  }

  lemma {:induction false} RunKeepsInv(s: State, steps: seq<Step>, t: State)
    requires Inv(s) && AllReasonable(steps, s.w, s.poolSize) && Run(s, steps) == Some(t)
    ensures Inv(t) && t.poolSize == s.poolSize
    decreases |steps|
  {
    if steps != [] {
      StepKeepsInv(s, steps[0]);
      RunKeepsInv(Apply(s, steps[0]), steps[1..], t);
    }
  }

  /**
   For any number of threads and any interleaving, stale loads, spurious failures and
   resets included, the ranges granted since the last reset lie in the pool, start at a
   multiple of their alignment, and are pairwise disjoint; granted bytes are conserved.
   */
  lemma RunIsSafe(w: nat, poolSize: nat, threadCount: nat, steps: seq<Step>, t: State)
    requires poolSize < Pow2(w) && AllReasonable(steps, w, poolSize)
    requires Run(Init(w, poolSize, threadCount), steps) == Some(t)
    ensures forall i :: 0 <= i < |t.grants| ==> End(t.grants[i]) <= poolSize && t.grants[i].start % Pow2(t.grants[i].k) == 0
    ensures forall i, j :: 0 <= i < |t.grants| && 0 <= j < |t.grants| && i != j ==>
      End(t.grants[i]) <= t.grants[j].start || End(t.grants[j]) <= t.grants[i].start
    ensures t.totalAllocated + Pending(t.threads) == t.grantedBytes
  {
    NothingPending(threadCount);
    RunKeepsInv(Init(w, poolSize, threadCount), steps, t);
  }

  /** A thread is refused exactly when its range would not fit behind the offset it loaded. */
  lemma RefusedIffTooLarge(s: State, i: nat, spurious: bool)
    requires Inv(s) && i < |s.threads| && s.threads[i].Computing? && s.threads[i].k < s.w
    ensures Apply(s, TrySwap(i, spurious)).threads[i].Outside?
      <==> TrueEnd(s.threads[i].current, s.threads[i].size, s.threads[i].k) > s.poolSize
  {
    SwapComputes(s, i);
  }

  /** A thread that loses the race loads the offset it lost to, and its next swap succeeds or is refused. */
  lemma RetryDecides(s: State, i: nat)
    requires Inv(s) && i < |s.threads| && s.threads[i].Computing? && s.threads[i].k < s.w
    requires s.threads[i].current != s.offset
    requires TrueEnd(s.threads[i].current, s.threads[i].size, s.threads[i].k) <= s.poolSize
    ensures var t := Apply(s, TrySwap(i, false));
      && t == s.(threads := t.threads) && t.threads == s.threads[i := s.threads[i].(current := s.offset)]
      && !Apply(t, TrySwap(i, false)).threads[i].Computing?
  {
    SwapComputes(s, i);
  }

  /**
   A call that nothing interrupts is granted the first aligned offset from the present one
   exactly if its range ends inside the pool; the pool then goes on behind it.
   */
  lemma AllocateAlone(s: State, i: nat, size: nat, k: nat)
    requires Inv(s) && i < |s.threads| && s.threads[i].Outside? && k < s.w && TrueEnd(s.offset, size, k) < Pow2(s.w)
    ensures var at := RoundUp(s.offset, Pow2(k));
      var t := Apply(Apply(s, Begin(i, size, k)), TrySwap(i, false));
      if at + size <= s.poolSize then
        && t.offset == at + size && t.grants == s.grants + [Grant(at, size, k)] && t.threads[i] == Granted(size)
        && Apply(t, CountBytes(i)) == t.(totalAllocated := s.totalAllocated + size, threads := s.threads)
      else t == s
  {
    AlignedValue(s.w, s.offset, k);
    NewValue(s.w, s.offset, size, k);
    assert s.threads[i := Outside] == s.threads;
    assert s.threads[i := Computing(size, k, s.offset)][i := Outside] == s.threads;
    assert s.threads[i := Computing(size, k, s.offset)][i := Granted(size)][i := Outside] == s.threads;
  }

  /** After a reset the whole pool can be had again. */
  lemma ResetFrees(s: State, i: nat)
    requires Inv(s) && i < |s.threads| && s.threads[i].Outside? && 0 < s.w
    ensures var t := Apply(s, Reset);
      && t.offset == 0 && t.grants == [] && t.totalAllocated == s.totalAllocated && t.threads == s.threads
      && Apply(Apply(t, Begin(i, s.poolSize, 0)), TrySwap(i, false)).grants == [Grant(0, s.poolSize, 0)]
  {
    var t := Apply(s, Reset);
    StepKeepsInv(s, Reset);
    AllocateAlone(t, i, s.poolSize, 0);
  }

  // ---------------------------------------------------------------- which limits are safe

  /** Ranges inside the pool, aligned, and pairwise disjoint. */
  ghost predicate Sound(s: State) {
    && (forall i :: 0 <= i < |s.grants| ==> End(s.grants[i]) <= s.poolSize && s.grants[i].start % Pow2(s.grants[i].k) == 0)
    && (forall i, j :: 0 <= i < |s.grants| && 0 <= j < |s.grants| && i != j ==>
          End(s.grants[i]) <= s.grants[j].start || End(s.grants[j]) <= s.grants[i].start)
  }

  /** All requests of the schedule keep to these limits. */
  ghost predicate Limited(steps: seq<Step>, maxSize: nat, maxK: nat) {
    forall i :: 0 <= i < |steps| && steps[i].Begin? ==> steps[i].size <= maxSize && steps[i].k <= maxK
  }

  ghost predicate AlwaysSound(w: nat, poolSize: nat, threadCount: nat, maxSize: nat, maxK: nat) {
    forall steps: seq<Step> :: Limited(steps, maxSize, maxK) && Run(Init(w, poolSize, threadCount), steps).Some? ==>
      Sound(Run(Init(w, poolSize, threadCount), steps).value)
  }

  lemma MultipleOfMultiple(u: nat, a: nat, b: nat)
    requires a > 0 && b > 0 && u % a == 0 && a % b == 0
    ensures u % b == 0
  {
    var q, r := u / a, a / b;
    assert u == q * a && a == r * b;
    ScaleTwice(q, r, b);
    DivUnique(u, b, q * r, 0);
  }

  lemma ScaleTwice(q: int, r: int, m: int)
    ensures q * (r * m) == (q * r) * m
  {
  }

  lemma LeastMultiple(x: nat, m: nat, u: nat)
    requires m > 0 && x <= u && u % m == 0
    ensures RoundUp(x, m) <= u
  {
    if u < RoundUp(x, m) {
      MultiplesApart(u, RoundUp(x, m), m);
    }
  }

  lemma SmallerIsReasonable(w: nat, poolSize: nat, size: nat, k: nat, maxSize: nat, maxK: nat)
    requires size <= maxSize && k <= maxK < w && TrueEnd(poolSize, maxSize, maxK) < Pow2(w)
    ensures Reasonable(w, poolSize, size, k)
  {
    var up := RoundUp(poolSize, Pow2(maxK));
    Pow2Divides(k, maxK);
    MultipleOfMultiple(up, Pow2(maxK), Pow2(k));
    LeastMultiple(poolSize, Pow2(k), up);
  }

  lemma RunCons(s: State, step: Step, rest: seq<Step>)
    requires Enabled(s, step)
    ensures Run(s, [step] + rest) == Run(Apply(s, step), rest)
  {
    assert ([step] + rest)[1..] == rest;
  }

  lemma {:induction false} RunAppend(s: State, a: seq<Step>, b: seq<Step>)
    ensures Run(s, a).Some? ==> Run(s, a + b) == Run(Run(s, a).value, b)
    decreases |a|
  {
    if a == [] {
      assert a + b == b;
    } else if Enabled(s, a[0]) {
      assert (a + b)[1..] == a[1..] + b;
      RunAppend(Apply(s, a[0]), a[1..], b);
    }
  }

  /** Thread 0 runs one request to its end: granted if the wrapped end fits the pool. */
  lemma RequestAlone(s: State, size: nat, k: nat) returns (t: State)
    requires 0 < |s.threads| && s.threads[0].Outside? && k < s.w
    requires NewOffset(s.w, s.offset, size, k) <= s.poolSize
    ensures Run(s, [Begin(0, size, k), TrySwap(0, false), CountBytes(0)]) == Some(t)
    ensures t.w == s.w && t.poolSize == s.poolSize && t.offset == NewOffset(s.w, s.offset, size, k)
    ensures t.threads == s.threads && t.grants == s.grants + [Grant(AlignedOffset(s.w, s.offset, k), size, k)]
  {
    var a := Apply(s, Begin(0, size, k));
    var b := Apply(a, TrySwap(0, false));
    t := Apply(b, CountBytes(0));
    RunCons(b, CountBytes(0), []);
    RunCons(a, TrySwap(0, false), [CountBytes(0)]);
    RunCons(s, Begin(0, size, k), [TrySwap(0, false), CountBytes(0)]);
  }

  lemma UnitStep(w: nat, current: nat)
    requires 0 < w && current + 1 < Pow2(w)
    ensures AlignedOffset(w, current, 0) == current && NewOffset(w, current, 1, 0) == current + 1
  {
    assert RoundUp(current, 1) == current;
    AlignedValue(w, current, 0);
    NewValue(w, current, 1, 0);
  }

  /** One-byte requests fill the pool to the brim. */
  lemma {:induction false} FillPool(w: nat, poolSize: nat, threadCount: nat, n: nat) returns (steps: seq<Step>, t: State)
    requires 0 < w && n <= poolSize < Pow2(w) && 0 < threadCount
    ensures Run(Init(w, poolSize, threadCount), steps) == Some(t) && Limited(steps, 1, 0)
    ensures t.w == w && t.poolSize == poolSize && t.offset == n && |t.threads| == threadCount && t.threads[0].Outside?
    ensures |t.grants| == n && (n > 0 ==> t.grants[0] == Grant(0, 1, 0))
  {
    if n == 0 {
      steps, t := [], Init(w, poolSize, threadCount);
    } else {
      var before, s := FillPool(w, poolSize, threadCount, n - 1);
      UnitStep(w, n - 1);
      t := RequestAlone(s, 1, 0);
      var request := [Begin(0, 1, 0), TrySwap(0, false), CountBytes(0)];
      RunAppend(Init(w, poolSize, threadCount), before, request);
      steps := before + request;
    }
  }

  /** A request that runs exactly off the word is granted, and the offset starts again at 0. */
  lemma OverlongRequestGranted(s: State, k: nat) returns (t: State)
    requires 0 < |s.threads| && s.threads[0].Outside? && k < s.w && 0 < s.offset <= s.poolSize < Pow2(s.w)
    requires RoundUp(s.offset, Pow2(k)) < Pow2(s.w)
    ensures var start := RoundUp(s.offset, Pow2(k));
      var size := Pow2(s.w) - start;
      && Run(s, [Begin(0, size, k), TrySwap(0, false), CountBytes(0)]) == Some(t)
      && t.offset == 0 && t.poolSize == s.poolSize && t.grants == s.grants + [Grant(start, size, k)] && !Sound(t)
  {
    var start := RoundUp(s.offset, Pow2(k));
    AlignedValue(s.w, s.offset, k);
    WrapOnceOver(start, Pow2(s.w) - start, Pow2(s.w));
    t := RequestAlone(s, Pow2(s.w) - start, k);
    assert End(t.grants[|s.grants|]) == Pow2(s.w) > t.poolSize;
  }

  /** A request whose aligned start runs off the word is granted at 0, over the first range. */
  lemma WrappedStartGranted(s: State, k: nat) returns (t: State)
    requires 0 < |s.threads| && s.threads[0].Outside? && k < s.w && 0 < s.offset <= s.poolSize < Pow2(s.w)
    requires RoundUp(s.offset, Pow2(k)) >= Pow2(s.w)
    requires s.grants != [] && s.grants[0] == Grant(0, 1, 0)
    ensures Run(s, [Begin(0, 1, k), TrySwap(0, false), CountBytes(0)]) == Some(t) && !Sound(t)
  {
    AlignedValue(s.w, s.offset, k);
    Pow2Monotone(1, s.w);
    DivUnique(1, Pow2(s.w), 0, 1);
    t := RequestAlone(s, 1, k);
    assert t.grants[0] == Grant(0, 1, 0) && t.grants[|s.grants|] == Grant(0, 1, k);
  }

  /** Behind a full pool one request within such limits is granted a range that is not sound. */
  lemma UnsafeRequest(s: State, maxSize: nat, maxK: nat) returns (last: seq<Step>, t: State)
    requires 0 < |s.threads| && s.threads[0].Outside? && 0 < s.offset == s.poolSize < Pow2(s.w)
    requires s.grants != [] && s.grants[0] == Grant(0, 1, 0)
    requires 0 < maxSize && maxK < s.w && TrueEnd(s.poolSize, maxSize, maxK) >= Pow2(s.w)
    ensures Limited(last, maxSize, maxK) && Run(s, last) == Some(t) && !Sound(t)
  {
    var start := RoundUp(s.poolSize, Pow2(maxK));
    if start < Pow2(s.w) {
      t := OverlongRequestGranted(s, maxK);
      last := [Begin(0, Pow2(s.w) - start, maxK), TrySwap(0, false), CountBytes(0)];
    } else {
      t := WrappedStartGranted(s, maxK);
      last := [Begin(0, 1, maxK), TrySwap(0, false), CountBytes(0)];
    }
  }

  /** Limits that can run off the word are broken by some schedule, on a full pool. */
  lemma UnsafeRun(w: nat, poolSize: nat, threadCount: nat, maxSize: nat, maxK: nat) returns (steps: seq<Step>)
    requires 0 < poolSize < Pow2(w) && 0 < threadCount && 0 < maxSize && maxK < w
    requires TrueEnd(poolSize, maxSize, maxK) >= Pow2(w)
    ensures Limited(steps, maxSize, maxK) && Run(Init(w, poolSize, threadCount), steps).Some?
    ensures !Sound(Run(Init(w, poolSize, threadCount), steps).value)
  {
    var fill, s := FillPool(w, poolSize, threadCount, poolSize);
    var last, t := UnsafeRequest(s, maxSize, maxK);
    RunAppend(Init(w, poolSize, threadCount), fill, last);
    steps := fill + last;
  }

  /**
   Every interleaving whose requests keep to a size and an alignment limit is sound if and
   only if the largest such request behind a full pool ends inside a machine word.
   */
  lemma RunSafeIff(w: nat, poolSize: nat, threadCount: nat, maxSize: nat, maxK: nat)
    requires 0 < poolSize < Pow2(w) && 0 < threadCount && 0 < maxSize && maxK < w
    ensures AlwaysSound(w, poolSize, threadCount, maxSize, maxK) <==> TrueEnd(poolSize, maxSize, maxK) < Pow2(w)
  {
    if TrueEnd(poolSize, maxSize, maxK) < Pow2(w) {
      forall steps: seq<Step> | Limited(steps, maxSize, maxK) && Run(Init(w, poolSize, threadCount), steps).Some?
        ensures Sound(Run(Init(w, poolSize, threadCount), steps).value)
      {
        LimitedIsSound(w, poolSize, threadCount, maxSize, maxK, steps, Run(Init(w, poolSize, threadCount), steps).value);
      }
    } else {
      var steps := UnsafeRun(w, poolSize, threadCount, maxSize, maxK);
      assert Limited(steps, maxSize, maxK) && Run(Init(w, poolSize, threadCount), steps).Some?;
    }
  }

  lemma LimitedIsSound(w: nat, poolSize: nat, threadCount: nat, maxSize: nat, maxK: nat, steps: seq<Step>, t: State)
    requires poolSize < Pow2(w) && maxK < w && TrueEnd(poolSize, maxSize, maxK) < Pow2(w)
    requires Limited(steps, maxSize, maxK) && Run(Init(w, poolSize, threadCount), steps) == Some(t)
    ensures Sound(t)
  {
    forall i | 0 <= i < |steps| && steps[i].Begin?
      ensures Reasonable(w, poolSize, steps[i].size, steps[i].k)
    {
      SmallerIsReasonable(w, poolSize, steps[i].size, steps[i].k, maxSize, maxK);
    }
    NothingPending(threadCount);
    RunKeepsInv(Init(w, poolSize, threadCount), steps, t);
  }
}
