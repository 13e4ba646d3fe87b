/**
 The mempool fee histogram: entries counted into 64 buckets of nondecreasing minimum
 feerate, and a percentile scan that estimates the feerate for a confirmation target.
 */
module BtcMempool {
  import opened Machine

  const MAX_MEMPOOL_ENTRIES: nat := 4096
  const FEE_BUCKETS: nat := 64
  const MIN_FEERATE: nat := 1

  function Shifted(k: nat): (s: nat)
    ensures s >= 1
  {
    if k == 0 then 1 else 2 * Shifted(k - 1)
  }

  /** The minimum feerate of bucket `i`: four buckets share each power of two. */
  function MinRate(i: nat): (r: nat)
    ensures r >= MIN_FEERATE
  {
    if i == 0 then 1 else Shifted(i / 4)
  }

  lemma {:induction false} ShiftedMonotone(a: nat, b: nat)
    requires a <= b
    ensures Shifted(a) <= Shifted(b)
    decreases b
  {
    if a < b {
      ShiftedMonotone(a, b - 1);
    }
  }

  lemma MinRateMonotone(i: nat, j: nat)
    requires i <= j
    ensures MinRate(i) <= MinRate(j)
  {
    DivMonotone(i, j, 4);
    ShiftedMonotone(i / 4, j / 4);
  }

  /** The first four buckets start at 1 sat/vB, and four buckets on the rate has doubled. */
  lemma MinRateDoubles(i: nat)
    ensures i < 4 ==> MinRate(i) == 1
    ensures MinRate(i + 4) == 2 * MinRate(i)
  {
    DivUnique(i + 4, 4, i / 4 + 1, i % 4);
  }

  /** Entries counted in the first `i` buckets. */
  function Cumulative(counts: seq<nat>, i: nat): nat
    requires i <= |counts|
  {
    if i == 0 then 0 else Cumulative(counts, i - 1) + counts[i - 1]
  }

  /** `100 - (target_blocks * 10).min(90)`, with the u32 product wrapping. */
  function Percentile(targetBlocks: nat): (p: nat)
    ensures 10 <= p <= 100
  {
    100 - Min((targetBlocks * 10) % U32, 90)
  }

  function Threshold(total: nat, targetBlocks: nat): (t: nat)
    ensures t <= total
  {
    DivUnique(total * 100, 100, total, 0);
    MulMonotone(Percentile(targetBlocks), 100, total);
    DivMonotone(total * Percentile(targetBlocks), total * 100, 100);
    (total * Percentile(targetBlocks)) / 100
  }

  /** The scan from bucket `i` on: the first bucket whose cumulative count meets the threshold. */
  function ScanFrom(counts: seq<nat>, threshold: nat, i: nat): Option<nat>
    requires i <= |counts|
    decreases |counts| - i
  {
    if i == |counts| then None
    else if Cumulative(counts, i + 1) >= threshold then Some(i)
    else ScanFrom(counts, threshold, i + 1)
  }

  function Estimate(counts: seq<nat>, total: nat, targetBlocks: nat): nat {
    if total == 0 then MIN_FEERATE
    else match ScanFrom(counts, Threshold(total, targetBlocks), 0)
      case None => MIN_FEERATE
      case Some(i) => MinRate(i)
  }

  lemma {:induction false} CumulativeMonotone(counts: seq<nat>, i: nat, j: nat)
    requires i <= j <= |counts|
    ensures Cumulative(counts, i) <= Cumulative(counts, j)
    decreases j
  {
    if i < j {
      CumulativeMonotone(counts, i, j - 1);
    }
  }

  /**
   When the buckets hold all entries the scan always finds a bucket: the one where the
   cumulative count first reaches the threshold.
   */
  lemma {:induction false} ScanFinds(counts: seq<nat>, threshold: nat, i: nat)
    requires i < |counts| && threshold <= Cumulative(counts, |counts|)
    ensures var r := ScanFrom(counts, threshold, i);
      && r.Some? && i <= r.value < |counts| && threshold <= Cumulative(counts, r.value + 1)
      && (i < r.value ==> Cumulative(counts, r.value) < threshold)
    decreases |counts| - i
  {
    if Cumulative(counts, i + 1) < threshold {
      ScanFinds(counts, threshold, i + 1);
    }
  }

  /**
   The estimate for a target within the product's range: with `wanted` the floored number of
   entries in (100 - 10 * target)%, but at least 10%, of all entries, the buckets before the
   one found hold fewer than `wanted` entries and those up to it at least as many.
   */
  lemma EstimateByPercentile(counts: seq<nat>, total: nat, targetBlocks: nat) returns (i: nat)
    requires 0 < total == Cumulative(counts, |counts|) && targetBlocks * 10 < U32
    ensures i < |counts| && Estimate(counts, total, targetBlocks) == MinRate(i)
    ensures var wanted := (total * (if targetBlocks >= 9 then 10 else 100 - 10 * targetBlocks)) / 100;
      wanted <= Cumulative(counts, i + 1) && (i > 0 ==> Cumulative(counts, i) < wanted)
  {
    ScanFinds(counts, Threshold(total, targetBlocks), 0);
    i := ScanFrom(counts, Threshold(total, targetBlocks), 0).value;
  }

  lemma PercentileMonotone(sooner: nat, later: nat)
    requires sooner <= later && later * 10 < U32
    ensures Percentile(later) <= Percentile(sooner)
  {
  }

  lemma ThresholdMonotone(total: nat, sooner: nat, later: nat)
    requires sooner <= later && later * 10 < U32
    ensures Threshold(total, later) <= Threshold(total, sooner)
  {
    PercentileMonotone(sooner, later);
    MulMonotone(Percentile(later), Percentile(sooner), total);
    DivMonotone(total * Percentile(later), total * Percentile(sooner), 100);
  }

  /** The estimated feerate never rises with the target, while the target fits the product. */
  lemma EstimateMonotone(counts: seq<nat>, total: nat, sooner: nat, later: nat)
    requires |counts| > 0 && Cumulative(counts, |counts|) == total
    requires sooner <= later && later * 10 < U32
    ensures Estimate(counts, total, later) <= Estimate(counts, total, sooner)
  {
    if total > 0 {
      ThresholdMonotone(total, sooner, later);
      ScanFinds(counts, Threshold(total, sooner), 0);
      ScanFinds(counts, Threshold(total, later), 0);
      var i := ScanFrom(counts, Threshold(total, later), 0).value;
      var j := ScanFrom(counts, Threshold(total, sooner), 0).value;
      if j < i {
        CumulativeMonotone(counts, j + 1, i);
      }
      MinRateMonotone(i, j);
    }
  }

  // ---------------------------------------------------------------- how far the promise holds

  ghost predicate MonotoneUpTo(cap: nat) {
    forall counts: seq<nat>, total: nat, sooner: nat, later: nat ::
      |counts| == FEE_BUCKETS && Cumulative(counts, |counts|) == total && sooner <= later <= cap
      ==> Estimate(counts, total, later) <= Estimate(counts, total, sooner)
  }

  lemma {:induction false} CumulativeStops(counts: seq<nat>, from: nat, i: nat)
    requires from <= i <= |counts| && forall k :: from <= k < i ==> counts[k] == 0
    ensures Cumulative(counts, i) == Cumulative(counts, from)
    decreases i
  {
    if from < i {
      CumulativeStops(counts, from, i - 1);
    }
  }

  /** A histogram with half its entries in bucket 0 and half in bucket 4. */
  lemma TwoPeaks() returns (counts: seq<nat>)
    ensures |counts| == FEE_BUCKETS && Cumulative(counts, |counts|) == 100
    ensures forall threshold :: 0 <= threshold <= 50 ==> ScanFrom(counts, threshold, 0) == Some(0)
    ensures forall threshold :: 50 < threshold <= 100 ==> ScanFrom(counts, threshold, 0) == Some(4)
  {
    counts := seq(FEE_BUCKETS, i => if i == 0 || i == 4 then 50 else 0);
    assert Cumulative(counts, 1) == 50;
    CumulativeStops(counts, 1, 2);
    CumulativeStops(counts, 1, 3);
    CumulativeStops(counts, 1, 4);
    assert Cumulative(counts, 5) == 100;
    CumulativeStops(counts, 5, FEE_BUCKETS);
    forall threshold | 50 < threshold <= 100 ensures ScanFrom(counts, threshold, 0) == Some(4) {
      assert ScanFrom(counts, threshold, 4) == Some(4);
      assert ScanFrom(counts, threshold, 2) == ScanFrom(counts, threshold, 3) == ScanFrom(counts, threshold, 4);
    }
  }

  /** The first target whose product wraps asks for the 96th percentile again. */
  lemma WrappedTargetRaises()
    ensures !MonotoneUpTo(429_496_730)
  {
    var counts := TwoPeaks();
    assert Percentile(9) == 10 && Percentile(429_496_730) == 96;
    assert Threshold(100, 9) == 10 && Threshold(100, 429_496_730) == 96;
    assert Shifted(1) == 2 && MinRate(4) == 2;
    assert Estimate(counts, 100, 429_496_730) == 2 && Estimate(counts, 100, 9) == 1;
  }

  /** Estimates are monotone for all histograms exactly up to a target of 429496729 blocks. */
  lemma MonotoneIff(cap: nat)
    ensures MonotoneUpTo(cap) <==> cap * 10 < U32
  {
    if cap * 10 < U32 {
      forall counts: seq<nat>, total: nat, sooner: nat, later: nat |
        |counts| == FEE_BUCKETS && Cumulative(counts, |counts|) == total && sooner <= later <= cap
        ensures Estimate(counts, total, later) <= Estimate(counts, total, sooner)
      {
        EstimateMonotone(counts, total, sooner, later);
      }
    } else {
      WrappedTargetRaises();
      assert cap >= 429_496_730;
    }
  }

  datatype Entry = Entry(txidHash: nat, feeSats: nat, vsize: nat, feerate: nat)

  const NO_ENTRY := Entry(0, 0, 0, 0)

  function TotalSize(entries: seq<Entry>): nat {
    if entries == [] then 0 else TotalSize(entries[..|entries| - 1]) + entries[|entries| - 1].vsize
  }

  function TotalFees(entries: seq<Entry>): nat {
    if entries == [] then 0 else TotalFees(entries[..|entries| - 1]) + entries[|entries| - 1].feeSats
  }

  lemma {:induction false} TotalsUpdate(entries: seq<Entry>, i: nat, e: Entry)
    requires i < |entries|
    ensures TotalSize(entries[i := e]) == TotalSize(entries) - entries[i].vsize + e.vsize
    ensures TotalFees(entries[i := e]) == TotalFees(entries) - entries[i].feeSats + e.feeSats
  {
    var n := |entries| - 1;
    if i < n {
      assert entries[i := e][..n] == entries[..n][i := e];
      TotalsUpdate(entries[..n], i, e);
    } else {
      assert entries[i := e][..n] == entries[..n];
    }
  }

  lemma {:induction false} CumulativeUpdate(counts: seq<nat>, b: nat, i: nat)
    requires b < |counts| && i <= |counts|
    ensures Cumulative(counts[b := counts[b] + 1], i) == Cumulative(counts, i) + (if b < i then 1 else 0)
  {
    if i > 0 {
      CumulativeUpdate(counts, b, i - 1);
    }
  }

  // ---------------------------------------------------------------- what the histogram counts

  /** The slots, and the buckets of all entries ever added, in order. */
  datatype Mempool = Mempool(entries: seq<Entry>, buckets: seq<nat>)

  datatype Op = Add(entry: Entry, bucket: nat) | Remove(idx: nat)

  function EmptyMempool(): Mempool {
    Mempool(seq(MAX_MEMPOOL_ENTRIES, _ => NO_ENTRY), [])
  }

  ghost predicate Shaped(m: Mempool) {
    && |m.entries| == MAX_MEMPOOL_ENTRIES && |m.buckets| <= MAX_MEMPOOL_ENTRIES
    && forall b <- m.buckets :: b < FEE_BUCKETS
  }

  function Apply(m: Mempool, op: Op): Mempool {
    match op
    case Add(entry, bucket) =>
      if |m.buckets| >= |m.entries| then m else Mempool(m.entries[|m.buckets| := entry], m.buckets + [bucket])
    case Remove(idx) =>
      if idx < |m.entries| && m.entries[idx].txidHash != 0 then m.(entries := m.entries[idx := NO_ENTRY]) else m
  }

  function After(ops: seq<Op>): Mempool {
    if ops == [] then EmptyMempool() else Apply(After(ops[..|ops| - 1]), ops[|ops| - 1])
  }

  ghost predicate InRange(ops: seq<Op>) {
    forall op <- ops :: op.Add? ==> op.bucket < FEE_BUCKETS
  }

  /** How many additions went to bucket `b`: what the histogram holds. */
  function CountIn(buckets: seq<nat>, b: nat): nat {
    if buckets == [] then 0
    else CountIn(buckets[..|buckets| - 1], b) + (if buckets[|buckets| - 1] == b then 1 else 0)
  }

  ghost predicate Counted(counts: seq<nat>, buckets: seq<nat>) {
    forall b :: 0 <= b < |counts| ==> counts[b] == CountIn(buckets, b)
  }

  lemma CountedUpdate(counts: seq<nat>, buckets: seq<nat>, b: nat)
    requires b < |counts| && Counted(counts, buckets)
    ensures Counted(counts[b := counts[b] + 1], buckets + [b])
  {
    assert (buckets + [b])[..|buckets|] == buckets;
  }

  /** How many of them are still stored under a name. */
  function StoredIn(entries: seq<Entry>, buckets: seq<nat>, b: nat): nat
    requires |buckets| <= |entries|
  {
    if buckets == [] then 0
    else
      var n := |buckets| - 1;
      StoredIn(entries, buckets[..n], b) + (if buckets[n] == b && entries[n].txidHash != 0 then 1 else 0)
  }

  lemma {:induction false} StoredAtMost(entries: seq<Entry>, buckets: seq<nat>, b: nat)
    requires |buckets| <= |entries|
    ensures StoredIn(entries, buckets, b) <= CountIn(buckets, b)
  {
    if buckets != [] {
      StoredAtMost(entries, buckets[..|buckets| - 1], b);
    }
  }

  /** A bucket counts only what is stored exactly if all its entries still have a name. */
  lemma {:induction false} BucketIsStoredIff(entries: seq<Entry>, buckets: seq<nat>, b: nat)
    requires |buckets| <= |entries|
    ensures StoredIn(entries, buckets, b) == CountIn(buckets, b) <==>
      forall i :: 0 <= i < |buckets| && buckets[i] == b ==> entries[i].txidHash != 0
  {
    if buckets != [] {
      var n := |buckets| - 1;
      BucketIsStoredIff(entries, buckets[..n], b);
      StoredAtMost(entries, buckets[..n], b);
      assert forall i :: 0 <= i < n ==> buckets[..n][i] == buckets[i];
    }
  }

  ghost predicate HistogramIsStored(m: Mempool)
    requires |m.buckets| <= |m.entries|
  {
    forall b: nat :: b < FEE_BUCKETS ==> CountIn(m.buckets, b) == StoredIn(m.entries, m.buckets, b)
  }

  ghost predicate AllNamed(m: Mempool)
    requires |m.buckets| <= |m.entries|
  {
    forall i :: 0 <= i < |m.buckets| ==> m.entries[i].txidHash != 0
  }

  lemma HistogramIsStoredIff(m: Mempool)
    requires Shaped(m)
    ensures HistogramIsStored(m) <==> AllNamed(m)
  {
    if AllNamed(m) {
      forall b: nat | b < FEE_BUCKETS
        ensures CountIn(m.buckets, b) == StoredIn(m.entries, m.buckets, b)
      {
        BucketIsStoredIff(m.entries, m.buckets, b);
      }
    }
    if HistogramIsStored(m) {
      forall i | 0 <= i < |m.buckets| ensures m.entries[i].txidHash != 0 {
        assert m.buckets[i] in m.buckets;
        BucketIsStoredIff(m.entries, m.buckets, m.buckets[i]);
      }
    }
  }

  /** An operation that leaves every entry in the histogram stored: no nameless addition, no removal. */
  predicate Preserves(m: Mempool, op: Op) {
    match op
    case Add(entry, _) => |m.buckets| >= |m.entries| || entry.txidHash != 0
    case Remove(idx) => idx >= |m.buckets|
  }

  ghost predicate AllPreserve(ops: seq<Op>) {
    ops == [] || (AllPreserve(ops[..|ops| - 1]) && Preserves(After(ops[..|ops| - 1]), ops[|ops| - 1]))
  }

  lemma ApplyNamed(m: Mempool, op: Op)
    requires Shaped(m)
    ensures |Apply(m, op).buckets| <= |Apply(m, op).entries|
    ensures AllNamed(Apply(m, op)) <==> AllNamed(m) && Preserves(m, op)
  {
    var next := Apply(m, op);
    if AllNamed(next) {
      forall i | 0 <= i < |m.buckets| ensures m.entries[i].txidHash != 0 {
        assert next.entries[i].txidHash != 0;
      }
    }
    match op
    case Add(entry, _) =>
      if |m.buckets| < |m.entries| {
        assert next.entries[|m.buckets|] == entry;
      }
    case Remove(idx) =>
      if idx < |m.buckets| && m.entries[idx].txidHash != 0 {
        assert next.entries[idx] == NO_ENTRY;
      }
  }

  lemma {:induction false} AfterShaped(ops: seq<Op>)
    requires InRange(ops)
    ensures Shaped(After(ops))
  {
    if ops != [] {
      var shorter := ops[..|ops| - 1];
      AfterShaped(shorter);
      assert ops[|ops| - 1] in ops;
    }
  }

  /**
   Removals never give their counts back: after a run the histogram is that of the stored
   entries if and only if every accepted addition had a name and no removal hit an added slot.
   */
  lemma {:induction false} HistogramAfterIff(ops: seq<Op>)
    requires InRange(ops)
    ensures Shaped(After(ops)) && (HistogramIsStored(After(ops)) <==> AllPreserve(ops))
  {
    AfterShaped(ops);
    HistogramIsStoredIff(After(ops));
    if ops != [] {
      var shorter := ops[..|ops| - 1];
      HistogramAfterIff(shorter);
      HistogramIsStoredIff(After(shorter));
      ApplyNamed(After(shorter), ops[|ops| - 1]);
    }
  }

  function Additions(ops: seq<Op>): nat {
    if ops == [] then 0
    else Additions(ops[..|ops| - 1]) + (if ops[|ops| - 1].Add? then 1 else 0)
  }

  /** However many entries are removed, only the first 4096 additions are ever accepted. */
  lemma {:induction false} RoomIsNeverRegained(ops: seq<Op>)
    ensures |After(ops).entries| == 4096
    ensures |After(ops).buckets| == Min(Additions(ops), 4096)
  {
    if ops != [] {
      RoomIsNeverRegained(ops[..|ops| - 1]);
    }
  }

  // ---------------------------------------------------------------- the tracker in place

  class Tracker {
    const entries: array<Entry>
    const txCounts: array<nat>
    var entryCount: nat
    var totalSizeBytes: nat
    var totalFeesSats: nat
    ghost var buckets: seq<nat>   // of all entries ever added

    ghost function View(): Mempool
      reads this, entries
    {
      Mempool(entries[..], buckets)
    }

    /** Bucket counts are those of all additions and add up to the entry count; totals are those of the stored entries. */
    ghost predicate Valid()
      reads this, entries, txCounts
    {
      && entries.Length == MAX_MEMPOOL_ENTRIES && txCounts.Length == FEE_BUCKETS
      && entryCount <= MAX_MEMPOOL_ENTRIES
      && Cumulative(txCounts[..], FEE_BUCKETS) == entryCount
      && totalSizeBytes == TotalSize(entries[..]) && totalFeesSats == TotalFees(entries[..])
      && Shaped(View()) && |buckets| == entryCount && Counted(txCounts[..], buckets)
      && forall i :: entryCount <= i < entries.Length ==> entries[i] == NO_ENTRY
    }

    constructor ()
      ensures Valid() && fresh(entries) && fresh(txCounts) && View() == EmptyMempool()
    {
      entries := new Entry[MAX_MEMPOOL_ENTRIES](_ => NO_ENTRY);
      txCounts := new nat[FEE_BUCKETS](_ => 0);
      entryCount, totalSizeBytes, totalFeesSats, buckets := 0, 0, 0, [];
      new;
      CumulativeStops(txCounts[..], 0, FEE_BUCKETS);
      NothingStored(entries[..]);
    }

    lemma {:induction false} NothingStored(s: seq<Entry>)
      requires forall i :: 0 <= i < |s| ==> s[i] == NO_ENTRY
      ensures TotalSize(s) == 0 && TotalFees(s) == 0
    {
      if s != [] {
        NothingStored(s[..|s| - 1]);
      }
    }

    /** `bucket` stands for the clamped float logarithm of the entry's feerate. */
    method AddEntry(entry: Entry, bucket: nat) returns (added: bool)
      requires Valid() && bucket < FEE_BUCKETS
      modifies this`entryCount, this`totalSizeBytes, this`totalFeesSats, this`buckets, entries, txCounts
      ensures Valid() && View() == Apply(old(View()), Add(entry, bucket))
      ensures added <==> old(entryCount) < MAX_MEMPOOL_ENTRIES
      ensures entryCount == old(entryCount) + (if added then 1 else 0)
      ensures entries[..] == if added then old(entries[..])[old(entryCount) := entry] else old(entries[..])
      ensures txCounts[..] == if added then old(txCounts[..])[bucket := old(txCounts[bucket]) + 1] else old(txCounts[..])
    {
      var idx := entryCount;
      entryCount := entryCount + 1;
      if idx >= MAX_MEMPOOL_ENTRIES {
        entryCount := entryCount - 1;
        return false;
      }
      TotalsUpdate(entries[..], idx, entry);
      StoreEntry(idx, entry);
      totalSizeBytes := totalSizeBytes + entry.vsize;
      totalFeesSats := totalFeesSats + entry.feeSats;
      CountInBucket(bucket);
      added := true;
    }

    method StoreEntry(idx: nat, entry: Entry)
      requires idx < entries.Length
      modifies entries
      ensures entries[..] == old(entries[..])[idx := entry]
    {
      entries[idx] := entry;
    }

    method CountInBucket(bucket: nat)
      requires bucket < FEE_BUCKETS == txCounts.Length && Counted(txCounts[..], buckets)
      modifies this`buckets, txCounts
      ensures txCounts[..] == old(txCounts[..])[bucket := old(txCounts[bucket]) + 1] && buckets == old(buckets) + [bucket]
      ensures Counted(txCounts[..], buckets)
      ensures Cumulative(txCounts[..], FEE_BUCKETS) == Cumulative(old(txCounts[..]), FEE_BUCKETS) + 1
    {
      CumulativeUpdate(txCounts[..], bucket, FEE_BUCKETS);
      CountedUpdate(txCounts[..], buckets, bucket);
      ghost var counts := txCounts[..];
      buckets := buckets + [bucket];
      txCounts[bucket] := txCounts[bucket] + 1;
      assert txCounts[..] == counts[bucket := counts[bucket] + 1];
    }

    /** The slot is blanked and its totals returned; the counts are not touched. */
    method RemoveEntry(idx: nat)
      requires Valid()
      modifies this`totalSizeBytes, this`totalFeesSats, entries
      ensures Valid() && View() == Apply(old(View()), Remove(idx))
      ensures entries[..] == if idx < MAX_MEMPOOL_ENTRIES && old(entries[idx]).txidHash != 0
                             then old(entries[..])[idx := NO_ENTRY] else old(entries[..])
    {
      if idx >= MAX_MEMPOOL_ENTRIES {
        return;
      }
      var entry := entries[idx];
      if entry.txidHash != 0 {
        TotalsUpdate(entries[..], idx, NO_ENTRY);
        SizeAtMost(entries[..], idx);
        totalSizeBytes := totalSizeBytes - entry.vsize;
        totalFeesSats := totalFeesSats - entry.feeSats;
        entries[idx] := NO_ENTRY;
      }
    }

    lemma {:induction false} SizeAtMost(s: seq<Entry>, i: nat)
      requires i < |s|
      ensures s[i].vsize <= TotalSize(s) && s[i].feeSats <= TotalFees(s)
    {
      if i < |s| - 1 {
        SizeAtMost(s[..|s| - 1], i);
      }
    }

    method ThresholdFor(targetBlocks: nat) returns (threshold: nat)
      ensures threshold == Threshold(entryCount, targetBlocks)
    {
      var percentile := 100 - Min((targetBlocks * 10) % U32, 90);
      threshold := (entryCount * percentile) / 100;
    }

    method EstimateFeerate(targetBlocks: nat) returns (rate: nat)
      requires Valid()
      ensures rate == Estimate(txCounts[..], entryCount, targetBlocks)
    {
      if entryCount == 0 {
        return MIN_FEERATE;
      }
      var threshold := ThresholdFor(targetBlocks);
      var cumulative := 0;
      for i := 0 to FEE_BUCKETS
        invariant cumulative == Cumulative(txCounts[..], i)
        invariant ScanFrom(txCounts[..], threshold, 0) == ScanFrom(txCounts[..], threshold, i)
      {
        cumulative := cumulative + txCounts[i];
        if cumulative >= threshold {
          return MinRate(i);
        }
      }
      rate := MIN_FEERATE;
    }
  }
}
