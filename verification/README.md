# Verified model of the trading engine's fixed-capacity components

This project models the integer, fixed-capacity components of the trading engine in Dafny
and proves what they keep over whole runs. Each module mirrors one source file:

- `EventLoop` is the single-producer single-consumer event ring as a machine whose steps are
  its atomic operations; `EventRingBuffer` is the ring object for calls that do not overlap.
- `SymbolMapper` and `IdempotencyKey` are the two open-addressing tables, written in place and
  tied to a plain list of keys and to the history of requests; `SymbolReaders` lets any number of
  lookups overlap one inserting thread, and `IdempotencyRace` any number of duplicate checks
  overlap each other, step by step; `Probing` holds the cyclic probe-path facts they share.
- `NumaAllocator` is the compare-and-swap bump pool for any number of threads, `NumaNodePool`
  the pool and allocator objects.
- `FixFields` and `FixMarketData` parse FIX tag=value messages (FIX 4.4 Volume 1, FIX
  "Tag=Value" Syntax): fields, fixed-point decimals, and repeating groups.
- `VolumeProfile`, `VolatilityBands` and `StreamingTa` are incremental statistics proved equal
  to recomputation; `RollingWindow` is the circular window two of them share.
- `RateLimiter` is the token bucket; `OrderLifecycle` one order as a value and
  `OrderStateMachine` the order objects and their table; `IcebergHandler` the iceberg orders.
- `MarkowitzSolver` is covariance shrinkage and inverse-variance weights, `CorePinner` the CPU
  sets and the kernel CPU-list text, `BtcMempool` the fee histogram.
- `Machine`, `BitOps` and `Decimal` hold machine arithmetic (wrap-around, truncating division,
  saturation), bitwise operators on naturals, and digit text.

Machine words are unbounded integers with the wrap-around or saturation of the source written
out (`WrapI64`, `WrapSub`, `% U64`, `Saturate`, `Clamp`); arithmetic that overflows is modelled
as a release build computes it. Capacities (ring size, table size, pool size, number of bins,
word width) are parameters. Clock readings are parameters. Bitwise masks are recursion over
binary digits, and the power-of-two identities the code relies on are proved in `BitOps`.

Classes follow the source's objects: methods update the fields and arrays in place and are
proved against functions on the old contents, and the properties are lemmas about those
functions.

## Findings

Where code, comments and tests disagree the model follows the code, and the exact condition
under which the intended property holds is proved:

- `consume_batch` counts the reservation of a `publish` that is about to be refused, so on a
  full ring a batch limit above the ring size makes the consumer wait forever
  (`EventLoop.DeadlockIff`: possible exactly when the limit exceeds the ring size).
- The pool's mask and sum wrap: a request whose range runs off the machine word moves the shared
  offset backwards (`NumaAllocator.OverlongRequestGranted`); which size and alignment limits are
  safe is exact (`NumaAllocator.RunSafeIff`).
- `isqrt` divides by zero for the largest u64 only (`VolatilityBands.Isqrt`), and the deviation is
  the root of the variance exactly below 2^64 - 1 (`VolatilityBands.StdDevExactIff`).
- The EMA is exact only while both products fit an i64: a price of 50000 units with period 10
  already falls outside (`StreamingTa.EmaExactIff`, `StreamingTa.LargePriceOverflows`). A
  constant price is kept exactly if neither product overflows and price times multiplier is a
  whole multiple of the scale; otherwise the average leaves it at the second tick
  (`StreamingTa.ConstantRunsKeptIff`).
- The windowed sum saturates: sum and mean are exact if and only if a full window fits an i64
  (`RollingWindow.RunningSumExactIff`, `StreamingTa.MeanExactIff`), and the Bollinger bands of a
  constant price sit on it if and only if a full window of it does (`VolatilityBands.FlatMarketIff`).
- The Bollinger bands turn over for negative multipliers and for those above 2^31, about 21.5
  (`VolatilityBands.BandsOrderedIff`).
- The rate limiter drops fractions of a token at each call, so polling faster than one token
  accrues never refills (`RateLimiter.FastPollingStarves`); exactly when a bucket is refilled is
  `RateLimiter.RefillAddsIff` for one call and `RateLimiter.StarvesIff` for a run.
- A key whose 16-slot window is full of other keys is forgotten, now and forever
  (`IdempotencyKey.DuplicateCaughtIff`, with a run in `IdempotencyKey.CrowdedWindowForgets`). Up to 16
  different keys are safe and 17 are not, whatever the table size (`IdempotencyKey.SafeForIff`). A
  low word of 0 is never caught (`IdempotencyKey.ZeroLowNeverCaught`).
- Two overlapping duplicate checks of one key can both answer "first use"
  (`IdempotencyRace.OverlappingChecksCanBothPass`); once no call for a low word is under way, all
  later checks are exact (`IdempotencyRace.LaterCheckIff`).
- `is_valid_transition` refuses to reject, cancel or time out a pending order, although its own
  comment and the test at `src/oms/order_state_machine.rs:690-699` expect a pending order to be
  rejectable, and it admits Submitted to Pending; `check_timeouts` counts the pending orders it
  could not move
  (`OrderLifecycle.AcceptedIff`, `OrderStateMachine.ReportedIsCancelledPlusStuck`).
- A fill of quantity 0 is accepted and leaves an unfilled order marked as partly filled
  (`OrderLifecycle.ZeroFillBreaksLifecycle`); state and quantities agree throughout a run exactly
  when every accepted fill leaves a non-zero filled quantity (`OrderLifecycle.RunLifecycleIff`).
- `cov_index` is injective exactly up to 62 of the 64 assets (`MarkowitzSolver.InjectiveIff`), and
  `set_covariance` does not bound a diagonal index: 64 to 125 overwrite another asset's variance
  (`MarkowitzSolver.DiagonalAliasIff`, `MarkowitzSolver.Optimizer.SetCovariance`).
- `optimize` reports success with all-zero weights when no variance is positive
  (`MarkowitzSolver.WeightsAreSound`), and with weights outside [0, SCALE] for small variances: two
  assets of variance 0.001 get -42% and +142% (`MarkowitzSolver.SmallVariancesOverflow`). The safe
  floor is exactly 108421, about 0.00108 (`MarkowitzSolver.WeightsInRangeIff`).
- Shrinkage multiplies each variance by the scale in an i64: with every variance one unit above
  92233720368, about 922.3, all of them wrap to negative ones and `optimize` reports success with
  all-zero weights (`MarkowitzSolver.CeilingFails`). Between that floor and this ceiling, and only
  there, every matrix is safe (`MarkowitzSolver.OptimizeSoundIff`).
- The decimal reader skips a minus sign, so of the negative values only the least i64 is read back
  (`FixMarketData.SignedRoundTripIff`).
- The look-ahead of a repeating group swallows a symbol inside it, so all events of a message
  carry the symbol before the first group (`FixMarketData.SecondSymbolSwallowed`; exactly when
  that is each event's own symbol is `FixMarketData.OwnSymbolsIff`).
- The fee estimate is monotone in the target exactly up to 429496729 blocks, where a u32 product
  wraps (`BtcMempool.MonotoneIff`). A removal gives back neither its bucket count nor its slot: the
  estimate goes on counting removed transactions (`BtcMempool.HistogramAfterIff`) and a tracker
  stays full after 4096 additions (`BtcMempool.RoomIsNeverRegained`).
- An iceberg fill on an order that is no longer live, and a cancellation of an empty slot, break
  the active count (`IcebergHandler.ActiveCountIff`, `IcebergHandler.CancelCountIff`). The display
  size is wrong exactly when its u64 product wraps (`IcebergHandler.DisplayExactIff`).

## Model

| member | source | states |
|---|---|---|
| EventLoop.FullCheckExact | src/core/event_loop.rs:177-178 | the wrapping subtraction in the full check is the number of unreleased events |
| EventLoop.StepKeepsInv | src/core/event_loop.rs:172-272 | every atomic step of producer and consumer, the reserve-and-roll-back of a refused publish included, keeps the ring invariant |
| EventLoop.RunKeepsInv | src/core/event_loop.rs:172-272 | every schedule of steps keeps the ring invariant and the ring size |
| EventLoop.RunIsSafe | src/core/event_loop.rs:172-272 | in every interleaving from the empty ring: delivered events are a prefix of published ones, consumer_seq never passes producer_seq, at most n events are unreleased and each is intact in its slot with its sequence number |
| EventLoop.StepRefinesQueue | src/core/event_loop.rs:172-272 | the ring refines a FIFO queue step by step: marking ready enqueues at the back, reading a slot dequeues the front, all other steps leave the queue alone |
| EventLoop.ReadTakesFront | src/core/event_loop.rs:239-272 | the slot read holds the oldest event not yet handed over |
| EventLoop.UnreleasedSlotsStable | src/core/event_loop.rs:172-200 | no step of either side writes a slot that holds an unreleased event |
| EventLoop.RefusedExactlyWhenFull | src/core/event_loop.rs:172-200 | publish is refused exactly when n events are unreleased, and then the counter is restored; otherwise the event is logged under its sequence number |
| EventLoop.LoadTakes | src/core/event_loop.rs:206-250 | wherever the producer stands, a loaded consumer gives up exactly when nothing is published or reserved beyond its counter or its limit is 0; otherwise a single consume takes one event and a batch the smaller of its limit and what is published or reserved |
| EventLoop.PollSucceedsIff | src/core/event_loop.rs:254-257 | a poll succeeds exactly when the awaited event has been published |
| EventLoop.ConsumeRun | src/core/event_loop.rs:206-272 | an uninterrupted consume or consume_batch hands over exactly the events it takes, in order, releases them, and changes nothing else |
| EventLoop.ConsumeOne | src/core/event_loop.rs:206-232 | with an unconsumed event published, six steps of a single consume hand over the oldest one and advance the counter by one |
| EventLoop.StuckForever | src/core/event_loop.rs:239-272 | a consumer waiting for an event that falls on its own unreleased batch waits under every continuation, and nothing is published meanwhile |
| EventLoop.SpinCanEnd | src/core/event_loop.rs:254-257 | otherwise producer steps alone can make the awaited slot ready |
| EventLoop.SpinEndsIff | src/core/event_loop.rs:239-272 | the consumer's wait can end if and only if it holds fewer than n unreleased events |
| EventLoop.FittingBatchesNeverStick | src/core/event_loop.rs:239-272 | no schedule whose batch limits are at most n ever gets stuck |
| EventLoop.OversizedBatchCanStick | src/core/event_loop.rs:172-272 | for every limit above n there is a schedule from the empty ring that gets stuck |
| EventLoop.DeadlockIff | src/core/event_loop.rs:172-272 | a ring of n slots can deadlock if and only if batch limits above n may be asked for |
| EventLoop.PublishOne | src/core/event_loop.rs:172-200 | an uninterrupted publish on a ring with room appends exactly its event |
| EventLoop.DepthReading | src/core/event_loop.rs:276-280 | short of a full 2^64 lap, a depth read across two states is a possible depth if and only if the consumer has not passed the stale producer value, and is the queue length when nothing runs |
| EventRingBuffer.RingBuffer.constructor | src/core/event_loop.rs:154-166 | a new ring is valid and empty |
| EventRingBuffer.RingBuffer.Publish | src/core/event_loop.rs:172-200 | refused exactly when the contents fill the ring; otherwise appends the event and returns its place in the log |
| EventRingBuffer.RingBuffer.Consume | src/core/event_loop.rs:206-232 | removes and returns the front of the contents, None exactly when empty |
| EventRingBuffer.RingBuffer.ConsumeBatch | src/core/event_loop.rs:239-272 | hands over the first min(length, limit) events in order and keeps the rest |
| EventRingBuffer.RingBuffer.Depth | src/core/event_loop.rs:276-280 | the number of unconsumed events |
| SymbolMapper.ComputeHash | src/normalization/symbol_mapper.rs:123-130 | the byte loop computes the FNV-1a recurrence modulo 2^32 |
| SymbolMapper.FnvVectors | src/normalization/symbol_mapper.rs:80-130 | the published FNV-1a vectors of the empty string and "a" |
| SymbolMapper.StringsEqual | src/normalization/symbol_mapper.rs:135-167 | block-wise and byte-wise comparison decide plain equality |
| SymbolMapper.EmptyBucketAhead | src/normalization/symbol_mapper.rs:182-254 | pigeonhole: with fewer keys than buckets every probe path meets an empty bucket within one lap |
| SymbolMapper.GapMeansAbsent | src/normalization/symbol_mapper.rs:268-301 | a gap on a key's path with only other keys before it shows the key was never stored |
| SymbolMapper.ScanFinds | src/normalization/symbol_mapper.rs:182-254 | the probe never exhausts the table: it ends at the bucket holding the key's id if the key is present and at an empty bucket otherwise |
| SymbolMapper.ClaimKeepsRepresentation | src/normalization/symbol_mapper.rs:186-212 | claiming the first empty bucket keeps every stored key reachable and represents the list with the key appended |
| SymbolMapper.IdsNeverChange | src/normalization/symbol_mapper.rs:173-255 | an id returned once is what every later lookup of that key returns, over any run |
| SymbolMapper.FoundIffInserted | src/normalization/symbol_mapper.rs:259-302 | after any run, lookup succeeds exactly on the keys some call was given an id for |
| SymbolMapper.IdsAreOneToCount | src/normalization/symbol_mapper.rs:173-255 | after any run the ids in use are exactly 1..count |
| SymbolMapper.AfterIsWellFormed | src/normalization/symbol_mapper.rs:173-255 | any run leaves distinct, acceptable keys, fewer than the symbol limit |
| SymbolMapper.InsertIs | src/normalization/symbol_mapper.rs:173-255 | one call: a length outside 1..32 is refused, a known key keeps its id, a new one gets the next id exactly while ids remain |
| SymbolMapper.CountIsPresented | src/normalization/symbol_mapper.rs:173-255 | after any run the number of ids given out is the number of different acceptable keys presented, up to one below the limit |
| SymbolMapper.Mapper.constructor | src/normalization/symbol_mapper.rs:102-110 | a new table represents the empty list of keys |
| SymbolMapper.Mapper.Matches | src/normalization/symbol_mapper.rs:214-233 | comparing hash, bytes and venue decides equality of keys |
| SymbolMapper.Mapper.Probe | src/normalization/symbol_mapper.rs:179-254 | the masked probe loop with its distance guard computes the scan of the bucket sequence |
| SymbolMapper.Mapper.Claim | src/normalization/symbol_mapper.rs:186-212 | the empty-bucket branch appends the key with the next id, or gives the id back when ids have run out |
| SymbolMapper.Mapper.GetOrInsert | src/normalization/symbol_mapper.rs:173-255 | refines insertion into the list of keys: rejects bad lengths, returns the existing id, or appends while ids remain |
| SymbolMapper.Mapper.Find | src/normalization/symbol_mapper.rs:259-302 | refines lookup in the list of keys |
| SymbolReaders.FillKeepsRepresentation | src/normalization/symbol_mapper.rs:196-206 | writing any field of a bucket whose id is still empty leaves what the table represents alone |
| SymbolReaders.StepKeepsInv | src/normalization/symbol_mapper.rs:182-301 | every field write, id publication and single read keeps: the table represents the published keys, an entry being written is invisible, a lookup has passed only published buckets of other keys |
| SymbolReaders.RunKeepsInv | src/normalization/symbol_mapper.rs:182-301 | so does every interleaving, and keys are only appended |
| SymbolReaders.AnswerIsCurrent | src/normalization/symbol_mapper.rs:268-301 | a lookup's answer is that of the list of published keys when it is given |
| SymbolReaders.LookupsAreAtomic | src/normalization/symbol_mapper.rs:259-302 | in every interleaving of one inserting thread and any number of lookups, each lookup answers as a plain lookup does at the moment of its last read |
| SymbolReaders.LookupsAreWaitFree | src/normalization/symbol_mapper.rs:295-300 | each read of a lookup answers or advances, and progress stays below four reads per bucket of the table, so the distance guard never fires |
| SymbolReaders.InsertionCompletes | src/normalization/symbol_mapper.rs:182-212 | from every reachable state with an idle writer and ids left, six steps of the writer publish a new acceptable key under the next id |
| SymbolReaders.LookupCompletes | src/normalization/symbol_mapper.rs:268-301 | from every reachable state a lookup's own reads, fewer than four per bucket, bring the answer of the published keys |
| IdempotencyKey.KeyTable.CheckAndMarkUsed | src/oms/idempotency_key.rs:173-213 | the bounded in-place probe changes the table and answers as the function Check |
| IdempotencyKey.KeyTable.CountTrackedKeys | src/oms/idempotency_key.rs:253-261 | counts the used entries |
| IdempotencyKey.CheckRecords | src/oms/idempotency_key.rs:173-213 | one check never overwrites a stored word, reports a duplicate exactly for recorded keys, and leaves a key of non-zero low word recorded unless all 16 slots hold other keys |
| IdempotencyKey.HashOfWords | src/oms/idempotency_key.rs:217-219 | the hash is the exclusive or of the two words times the constant, modulo 2^64 |
| IdempotencyKey.UnmarkedIsFirstUse | src/oms/idempotency_key.rs:173-213 | a stored key whose mark is not set counts as first use and gets the mark |
| IdempotencyKey.FirstUseStores | src/oms/idempotency_key.rs:173-213 | a first use stores low word, time, strategy and mark in one free slot |
| IdempotencyKey.ScanStable | src/oms/idempotency_key.rs:177-209 | a probe that did not end at a gap ends alike in every later table |
| IdempotencyKey.DuplicateCaughtIff | src/oms/idempotency_key.rs:173-213 | in any run, a key of non-zero low word presented again is reported if and only if its window was not crowded when it was presented before |
| IdempotencyKey.CrowdedWindowForgets | src/oms/idempotency_key.rs:173-219 | for every table size there is a run that crowds a window, so that a key presented twice is not reported |
| IdempotencyKey.CrowdedNeedsSeventeen | src/oms/idempotency_key.rs:173-213 | whenever a check of a run meets a crowded window, the run has presented more than 16 different keys of non-zero low word |
| IdempotencyKey.SafeForIff | src/oms/idempotency_key.rs:173-219 | for every table size, all runs with at most a given number of different keys of non-zero low word report every repeat of such a key if and only if that number is at most 16 |
| IdempotencyKey.DuplicateWasPresented | src/oms/idempotency_key.rs:173-213 | a duplicate is reported only if the same low word was presented before |
| IdempotencyKey.ZeroLowNeverCaught | src/oms/idempotency_key.rs:173-213 | a key with low word 0 is never reported |
| IdempotencyKey.TrackedPlusForgotten | src/oms/idempotency_key.rs:173-261 | tracked keys plus crowded checks equal the checks that answered first use; an entry is used exactly when it stores a key |
| IdempotencyRace.StepKeepsInv | src/oms/idempotency_key.rs:177-209 | every atomic load, store and compare-and-swap of any overlapping call keeps: no gap behind a searching call or before the word of a returned one, every unmarked word has its claimer under way, every word comes from a call that presented it |
| IdempotencyRace.RunKeepsInv | src/oms/idempotency_key.rs:177-209 | so does every interleaving, and stored words and used marks are never taken back |
| IdempotencyRace.DuplicateHasAnother | src/oms/idempotency_key.rs:200-204 | in every interleaving of any number of threads a call answers "duplicate" only if another call presented the same low word |
| IdempotencyRace.ReturnedLeavesNoGap | src/oms/idempotency_key.rs:177-212 | in every interleaving each call with a non-zero low word that has returned leaves its window without a gap before its word |
| IdempotencyRace.QuietIsSettled | src/oms/idempotency_key.rs:177-212 | when no call for a low word is under way, every key with that low word presented so far is stored and marked within its window, or the window is full of other words |
| IdempotencyRace.RunFollows | src/oms/idempotency_key.rs:177-212 | a call that starts on such a window stays on its way to the window's answer under any interference |
| IdempotencyRace.AloneIsCheck | src/oms/idempotency_key.rs:173-213 | a call that nothing interrupts answers, stores and marks as the sequential check does |
| IdempotencyRace.LaterCheckIff | src/oms/idempotency_key.rs:173-213 | once no call for a low word is under way, every check of a key with that low word presented so far, begun at any later moment by any thread and overlapping whatever else, answers "duplicate" if and only if the window was not full of other words |
| IdempotencyRace.OverlappingChecksCanBothPass | src/oms/idempotency_key.rs:181-207 | for every key with a non-zero low word and every table size there is an interleaving of two checks that both answer "first use" |
| NumaAllocator.MaskIsRoundUp | src/hardware/numa_allocator.rs:120 | without wrap-around the mask expression is round-up to the alignment |
| NumaAllocator.AlignedValue | src/hardware/numa_allocator.rs:120 | the mask expression is the aligned offset if that fits a machine word and 0 otherwise |
| NumaAllocator.GrantSoundIff | src/hardware/numa_allocator.rs:119-135 | a request that passes the exhaustion test gets a range behind the offset and inside the pool if and only if the range's true end fits a machine word |
| NumaAllocator.OverlongRequestRewinds | src/hardware/numa_allocator.rs:119-135 | when the aligned start fits a machine word but the end does not, the new offset lies before the range that is granted |
| NumaAllocator.OverlongRequestGranted | src/hardware/numa_allocator.rs:118-138 | from any non-zero offset a request that runs exactly off the word is granted, sets the offset to 0 and leaves a range beyond the pool |
| NumaAllocator.WrappedStartGranted | src/hardware/numa_allocator.rs:118-138 | a one-byte request whose aligned start runs off the word is granted at 0, over the first range |
| NumaAllocator.UnsafeRun | src/hardware/numa_allocator.rs:111-139 | limits that can run off the word are broken by some schedule that keeps to them |
| NumaAllocator.StepKeepsInv | src/hardware/numa_allocator.rs:111-144 | each atomic step keeps grants disjoint and inside the pool and, resets aside, never lowers the offset |
| NumaAllocator.RunIsSafe | src/hardware/numa_allocator.rs:111-144 | for any number of threads and any interleaving with stale loads, spurious failures and resets: the ranges granted since the last reset are pairwise disjoint, inside the pool and aligned; granted bytes equal counted plus pending bytes |
| NumaAllocator.RunSafeIff | src/hardware/numa_allocator.rs:111-144 | every interleaving that keeps to a size and an alignment limit grants disjoint aligned ranges inside the pool if and only if the largest such request behind a full pool ends inside a machine word |
| NumaAllocator.RefusedIffTooLarge | src/hardware/numa_allocator.rs:123-125 | a thread is refused exactly when its range does not fit behind the offset it loaded |
| NumaAllocator.RetryDecides | src/hardware/numa_allocator.rs:116-140 | a thread that loses the race loads the offset it lost to, and its next swap is decided |
| NumaAllocator.AllocateAlone | src/hardware/numa_allocator.rs:116-140 | an uninterrupted call is granted the first aligned offset exactly if its range ends inside the pool, the pool then going on behind it, and otherwise changes nothing |
| NumaAllocator.ResetFrees | src/hardware/numa_allocator.rs:141-144 | after a reset the whole pool can be had again |
| NumaNodePool.NodePool.constructor | src/hardware/numa_allocator.rs:100-107 | an initialised pool is active with offset 0 |
| NumaNodePool.NodePool.Allocate | src/hardware/numa_allocator.rs:111-139 | for a thread alone, whatever the spurious failures: granted exactly when the wrapped end fits the pool; for requests that fit a word, the rounded-up offset, with the offset moved just behind the range |
| NumaNodePool.NodePool.Reset | src/hardware/numa_allocator.rs:142-144 | the offset returns to 0 |
| NumaNodePool.Allocator.AllocateOnNode | src/hardware/numa_allocator.rs:193-203 | unknown nodes are refused; otherwise the node's pool decides, and the byte total grows by exactly the granted size |
| FixFields.FirstInBlock | src/gateways/fix_protocol_engine.rs:173-179 | the first match in a 32-byte block |
| FixFields.FindSoh | src/gateways/fix_protocol_engine.rs:165-195 | scanning by blocks and then bytes finds the first delimiter of the whole slice |
| FixFields.ParseTag | src/gateways/fix_protocol_engine.rs:211-219 | the u16 loop with both wraps is the decimal value modulo 2^16, and fails exactly on a non-digit |
| FixFields.ParseField | src/gateways/fix_protocol_engine.rs:200-231 | the parser with its early exits reads the field at the given position, or fails |
| FixFields.ParseSerialised | src/gateways/fix_protocol_engine.rs:200-231 | repeated parsing of the serialisation of any list of fields with 16-bit tags and delimiter-free values returns exactly that list |
| FixFields.RoundTripIff | src/gateways/fix_protocol_engine.rs:200-231 | a field survives the round trip if and only if its tag fits 16 bits and its value holds no delimiter |
| FixFields.WireFormat | src/gateways/fix_protocol_engine.rs:187-232 | on the wire a field is its decimal tag, an equals sign, the value and the byte 1 |
| FixFields.ParsedIsSendable | src/gateways/fix_protocol_engine.rs:200-231 | whatever the bytes, a parsed field is one the format can carry |
| FixMarketData.DigestMeaning | src/gateways/fix_protocol_engine.rs:271-299 | after any prefix the registers hold the whole digits modulo 2^64 and exactly the first eight fraction digits |
| FixMarketData.ParseDecimalFixed | src/gateways/fix_protocol_engine.rs:271-299 | the wrapping byte loop computes the denoted number times 10^8 as an i64 |
| FixMarketData.PointIsDot | src/gateways/fix_protocol_engine.rs:271-299 | the text 12.5 reads as 1250000000 |
| FixMarketData.DecimalRoundTrip | src/gateways/fix_protocol_engine.rs:271-299 | every non-negative i64 is read back exactly from its canonical decimal text |
| FixMarketData.SignIsIgnored | src/gateways/fix_protocol_engine.rs:271-299 | a leading minus changes nothing |
| FixMarketData.SignedRoundTripIff | src/gateways/fix_protocol_engine.rs:271-299 | the decimal text of a signed i64 is read back exactly if and only if the value is not negative or is the least i64, whose magnitude wraps onto it |
| FixMarketData.ParseMsgType | src/gateways/fix_protocol_engine.rs:235-254 | the type is decided by the first field with tag 35, Unknown if there is none |
| FixMarketData.MsgTypeByPosition | src/gateways/fix_protocol_engine.rs:235-254 | the first byte 0, A, 5, W or X of the first field 35 gives the five known types, anything else Unknown |
| FixMarketData.GatherIsLast | src/gateways/fix_protocol_engine.rs:332-348 | the look-ahead of a group ends at the next tag 269 with the last 270 and last 271 before it |
| FixMarketData.ReadGroup | src/gateways/fix_protocol_engine.rs:327-348 | the look-ahead loop on bytes is the look-ahead on the parsed fields |
| FixMarketData.NextEvent | src/gateways/fix_protocol_engine.rs:319-371 | the tag-269 arm yields the first event of the remaining fields and the position behind its group |
| FixMarketData.ProcessMdIncremental | src/gateways/fix_protocol_engine.rs:303-378 | on any bytes, the pushed events are the accepted ones of the events of the parsed fields, and the count is their number |
| FixMarketData.EventsOfSerialised | src/gateways/fix_protocol_engine.rs:303-378 | over the serialisation of any sendable fields: one event per tag 269 in order, each with its own last 270 and 271, all with the last non-empty 55 before the first 269 |
| FixMarketData.EventsByPosition | src/gateways/fix_protocol_engine.rs:303-378 | over the serialisation of any sendable fields, by position: the group of the 269 at i up to the next at j gives the event numbered by the groups before it, with the handler's venue, the first byte of the 269 less 48 on u8 as type, the decimal of the last 270 strictly between as price, that of the last 271 as quantity, and the first two bytes of the last non-empty 55 before the first group as symbol |
| FixMarketData.OwnSymbolsIff | src/gateways/fix_protocol_engine.rs:303-378 | over any parsed fields, every event carries the last non-empty 55 before its own 269 if and only if each group but the last gives no 55 or ends on the one in force before the first 269 |
| FixMarketData.SecondSymbolSwallowed | src/gateways/fix_protocol_engine.rs:332-348 | an instance outside it: with one 55 before each of two groups both events carry the first |
| FixMarketData.AllAccepted | src/gateways/fix_protocol_engine.rs:362-367 | a ring that takes everything receives every event |
| FixMarketData.AcceptedInOrder | src/gateways/fix_protocol_engine.rs:362-367 | the ring receives exactly the events whose push it accepts, in order |
| VolumeProfile.BinRoundTrip | src/orderflow/volume_profile.rs:171-193 | the price that stands for a bin maps back to that bin |
| VolumeProfile.BinCollects | src/orderflow/volume_profile.rs:171-184 | exactly which prices a bin collects: one tick above for bins over the center, one below for bins under it, both for the center |
| VolumeProfile.PriceWithinTick | src/orderflow/volume_profile.rs:171-193 | an in-range price lies within one tick of the price of its bin |
| VolumeProfile.TotalIsBidPlusAsk | src/orderflow/volume_profile.rs:46-57 | recomputed from any history, a bin's total is bid plus ask |
| VolumeProfile.ReplayFacts | src/orderflow/volume_profile.rs:197-237 | after every trade of every session each bin, the totals and the extremes are those recomputed from the trades, and the point of control is a bin of maximum volume |
| VolumeProfile.PocMovesIff | src/orderflow/volume_profile.rs:190-237 | the point of control starts in the middle and moves exactly when a trade makes its bin strictly heavier than the present one, and then to that bin |
| VolumeProfile.ExpandReaches | src/orderflow/volume_profile.rs:241-284 | the grown interval reaches its target exactly when the whole histogram does, and otherwise is the whole histogram |
| VolumeProfile.ExpandMinimal | src/orderflow/volume_profile.rs:241-284 | without the bin added last the volume was below the target |
| VolumeProfile.ExpandMonotone | src/orderflow/volume_profile.rs:241-284 | a larger target never yields a narrower area |
| VolumeProfile.ExpandTakesHeaviest | src/orderflow/volume_profile.rs:241-284 | on a single-peaked histogram no bin left out is heavier than one taken in |
| VolumeProfile.ExpandByOne | src/orderflow/volume_profile.rs:241-284 | when one more bin is enough it is the heavier neighbour, the left one on a tie |
| VolumeProfile.ExpandResumes | src/orderflow/volume_profile.rs:241-284 | growing to a larger target goes on from where a smaller one stopped |
| VolumeProfile.ExpandIsValueArea | src/orderflow/volume_profile.rs:241-284 | all of these together for the area grown from any bin |
| VolumeProfile.Profile.constructor | src/orderflow/volume_profile.rs:134-167 | a new profile is the replay of no trades |
| VolumeProfile.Profile.RecordTrade | src/orderflow/volume_profile.rs:197-223 | the profile becomes the replay of one more trade; the answer says whether the price has a bin |
| VolumeProfile.Profile.UpdatePoc | src/orderflow/volume_profile.rs:227-237 | the point of control moves only to a strictly heavier candidate |
| VolumeProfile.Profile.GrowArea | src/orderflow/volume_profile.rs:255-273 | the loop with its running sum computes the grown interval |
| VolumeProfile.Profile.CalculateValueArea | src/orderflow/volume_profile.rs:241-284 | a sound value area around the point of control, reported in prices; all zeros when nothing was traded |
| VolumeProfile.Profile.GetPoc | src/orderflow/volume_profile.rs:288-297 | the price and volume of a bin of maximum volume, None exactly when the total volume is 0 |
| VolumeProfile.Profile.Reset | src/orderflow/volume_profile.rs:333-344 | the profile becomes the replay of no trades |
| RollingWindow.WindowPush | src/indicators/streaming_ta.rs:101-124 | one more price drops the oldest of a full window, and how the window sum changes |
| RollingWindow.RunningSumExact | src/indicators/streaming_ta.rs:101-124 | for values up to a bound of which a full window fits the register, the running sum is the recomputed one after any history |
| RollingWindow.RunningSumExactIff | src/indicators/streaming_ta.rs:101-124 | the running sum is exact for all histories of values up to a bound if and only if period times bound fits the register |
| RollingWindow.SubtractionSaturates | src/indicators/streaming_ta.rs:107-117 | subtraction and addition saturate one after the other |
| RollingWindow.OldestInSlot | src/indicators/streaming_ta.rs:102-107 | the slot about to be overwritten holds the price that leaves the window |
| RollingWindow.BufferPush | src/indicators/streaming_ta.rs:113-116 | the circular write keeps the last p prices in their slots |
| VolatilityBands.Isqrt | src/indicators/volatility_bands.rs:130-141 | terminates with the floor of the square root for every u64 except the largest, which panics |
| VolatilityBands.NewtonStaysAbove | src/indicators/volatility_bands.rs:135-139 | a Newton step never falls below the root |
| VolatilityBands.SumsGiveSpread | src/indicators/volatility_bands.rs:91-93 | Lagrange's identity: size times sum of squares minus squared sum is the sum of squared differences over all pairs of prices, hence never negative |
| VolatilityBands.VarianceBracketed | src/indicators/volatility_bands.rs:91-93 | the truncated integer variance of any window is non-negative and misses the true one by less than one below and 1/n above |
| VolatilityBands.StdDevExactIff | src/indicators/volatility_bands.rs:95-101 | the deviation is the floor root of the variance if and only if the variance is below 2^64 - 1 |
| VolatilityBands.NoSpread | src/indicators/volatility_bands.rs:95-101 | a variance that is not positive gives the deviation 0 |
| VolatilityBands.BandsOrdered | src/indicators/volatility_bands.rs:103-106 | with a multiplier between 0 and 2^31 the bands never cross, whatever the sums |
| VolatilityBands.BandsOrderedIff | src/indicators/volatility_bands.rs:103-106 | the bands of every window are ordered if and only if the i64 multiplier lies between 0 and 2^31; outside some window turns them over |
| VolatilityBands.UnitMultiplier | src/indicators/volatility_bands.rs:103-106 | a multiplier of 1.0 puts the outer bands exactly one deviation from the middle |
| VolatilityBands.OffsetGrows | src/indicators/volatility_bands.rs:103-106 | up to 2^31 a larger multiplier never gives narrower bands |
| VolatilityBands.RunBands | src/indicators/volatility_bands.rs:70-106 | after any run of prices whose window cannot saturate the sum the bands are built on the true window, its variance is non-negative and lower, middle, upper are in order |
| VolatilityBands.FlatMarket | src/indicators/volatility_bands.rs:70-106 | bands built on the recomputed sums of a window of one price sit on that price |
| VolatilityBands.FlatMarketIff | src/indicators/volatility_bands.rs:70-106 | with the running sums, on every run of one price all three bands sit on it if and only if period times price fits an i64 |
| VolatilityBands.ComputeBands | src/indicators/volatility_bands.rs:88-106 | the bands of the two sums, or the panic of the square root |
| VolatilityBands.TracksPush | src/indicators/volatility_bands.rs:70-85 | sliding both sums and the buffer keeps them those of the history with one more price |
| VolatilityBands.Bollinger.constructor | src/indicators/volatility_bands.rs:47-66 | a new indicator has seen no prices |
| VolatilityBands.Bollinger.Update | src/indicators/volatility_bands.rs:70-106 | the history grows by the price and the stored bands are those of the sums; for histories whose window cannot saturate the sum, those of the recomputed window |
| StreamingTa.StepExactIff | src/indicators/streaming_ta.rs:49-51 | on non-negative data an update equals unbounded arithmetic if and only if both products fit an i64 |
| StreamingTa.EmaExactIff | src/indicators/streaming_ta.rs:30-54 | the average equals unbounded arithmetic on every run of prices up to a high if and only if both products fit an i64 at that high |
| StreamingTa.MultiplierIs | src/indicators/streaming_ta.rs:30-31 | the multiplier is 2 / (period + 1) of the scale, rounded down |
| StreamingTa.LargePriceOverflows | src/indicators/streaming_ta.rs:42-54 | at a constant 50000 units with period 10 the average reads below 200 units |
| StreamingTa.StepBounds | src/indicators/streaming_ta.rs:49-51 | without overflow one update stays below the high and keeps the drift bound |
| StreamingTa.GapShrinks | src/indicators/streaming_ta.rs:49-51 | without overflow each update scales the gap between price and average by (1 - multiplier), up to two units of rounding |
| StreamingTa.EmaStaysInRange | src/indicators/streaming_ta.rs:30-54 | after any run of non-negative prices whose highest overflows neither product the average is at most the highest price, and (lowest - average) * multiplier is at most 2 * SCALE |
| StreamingTa.ConstantPriceDrift | src/indicators/streaming_ta.rs:30-54 | on a constant price that overflows neither product the average never rises above it and sinks by a bounded amount |
| StreamingTa.ConstantKeptIff | src/indicators/streaming_ta.rs:42-54 | on a constant price without overflow the average is the price after any two or more ticks if and only if price times multiplier is a whole multiple of SCALE; otherwise it has left it for good |
| StreamingTa.ConstantRunsKeptIff | src/indicators/streaming_ta.rs:42-54 | for every non-negative price: the average stays on it at the second tick, and on every run of it, if and only if neither product overflows an i64 and price times multiplier is a whole multiple of SCALE |
| StreamingTa.DriftHappens | src/indicators/streaming_ta.rs:42-54 | an instance: a second tick at price 1 takes a period-2 average to 0 |
| StreamingTa.StreamingEma.constructor | src/indicators/streaming_ta.rs:30-38 | the multiplier of the period, no prices seen |
| StreamingTa.StreamingEma.Update | src/indicators/streaming_ta.rs:42-54 | returns the recurrence over all prices since the last reset, the first price itself if it is the only one |
| StreamingTa.StreamingEma.Reset | src/indicators/streaming_ta.rs:64-67 | no prices seen |
| StreamingTa.MeanOfWindow | src/indicators/streaming_ta.rs:101-134 | for prices up to a bound of which a full window fits an i64 the O(1) mean is the one recomputed over the last min(n, p) prices |
| StreamingTa.MeanRounds | src/indicators/streaming_ta.rs:128-134 | the mean of nothing is 0, otherwise the quotient rounded toward zero |
| StreamingTa.MeanExactIff | src/indicators/streaming_ta.rs:101-134 | the O(1) mean is the recomputed one for all histories of prices up to a bound if and only if period times bound fits an i64 |
| StreamingTa.SaturationHalvesMean | src/indicators/streaming_ta.rs:101-124 | an instance outside that bound: two maximal prices average to half of either |
| StreamingTa.StreamingSma.constructor | src/indicators/streaming_ta.rs:87-97 | no prices seen |
| StreamingTa.StreamingSma.Update | src/indicators/streaming_ta.rs:101-124 | the history grows by the price; for histories whose window cannot saturate the sum the result is the recomputed window mean |
| StreamingTa.StreamingSma.Get | src/indicators/streaming_ta.rs:128-134 | the mean of the running sum, 0 when no price was seen |
| StreamingTa.StreamingSma.Reset | src/indicators/streaming_ta.rs:138-143 | no prices seen |
| RateLimiter.QuotaHolds | src/compliance/rate_limiter.rs:131-161 | over any window of calls with a nondecreasing clock, granted plus remaining tokens are at most capacity plus floor(span * rate / 2^32), and tokens stay within capacity |
| RateLimiter.RefillExactIff | src/compliance/rate_limiter.rs:136-137 | the refill is what accrued if and only if the product fits a u64 |
| RateLimiter.FastPollingStarves | src/compliance/rate_limiter.rs:131-161 | when every gap accrues less than one token, a run is granted only tokens the bucket started with |
| RateLimiter.RefillAddsIff | src/compliance/rate_limiter.rs:136-139 | without overflow a call adds tokens if and only if the bucket is not full and a whole token has accrued since the last call |
| RateLimiter.StarvesIff | src/compliance/rate_limiter.rs:131-161 | over any window granted plus remaining tokens are never below what the bucket started with, and equal to it if and only if every call finds a full bucket or comes before a whole token has accrued |
| RateLimiter.RefusedIff | src/compliance/rate_limiter.rs:136-161 | without overflow, and whatever the clock does, a request is refused exactly when it exceeds the capacity or the balance plus what accrued |
| RateLimiter.AcquireLeaves | src/compliance/rate_limiter.rs:136-161 | without overflow a call leaves the balance plus what accrued, up to the capacity, less what it granted, and takes over the clock |
| RateLimiter.BackwardClockAddsNothing | src/compliance/rate_limiter.rs:136-161 | a clock that stands still or goes back adds nothing and is taken over all the same |
| RateLimiter.Limiter.constructor | src/compliance/rate_limiter.rs:80-91 | active, circuit closed, all buckets empty |
| RateLimiter.Limiter.InitBucket | src/compliance/rate_limiter.rs:94-105 | one bucket is set full with the given rate and its refill timestamp kept; bad indices change nothing |
| RateLimiter.Limiter.TryAcquire | src/compliance/rate_limiter.rs:109-162 | inactive always allows, open circuit always refuses, both without effect; otherwise exactly one bucket is charged as the function Acquire |
| RateLimiter.Limiter.Reset | src/compliance/rate_limiter.rs:195-201 | every bucket is refilled to its capacity |
| OrderLifecycle.AcceptedIff | src/oms/order_state_machine.rs:221-229 | exactly which states accept each event |
| OrderLifecycle.AcceptedStates | src/oms/order_state_machine.rs:233-330 | the state after each accepted event: Submitted, Acknowledged, Cancelled, Rejected, and for a fill Filled exactly if the filled quantity reaches the order's, else PartiallyFilled |
| OrderLifecycle.StoredFields | src/oms/order_state_machine.rs:233-330 | an accepted event stamps the update time; submit time, exchange id and error code are stored even on refusal; a refused event changes neither state nor fills; all other fields stay |
| OrderLifecycle.FillFields | src/oms/order_state_machine.rs:233-271 | an accepted fill without overflow adds its quantity and one fill and leaves quantity less filled, or 0, remaining |
| OrderLifecycle.StatesInOrder | src/oms/order_state_machine.rs:18-39 | the nine states are numbered 0 to 8 in the order of their declaration |
| OrderLifecycle.TransitionIff | src/oms/order_state_machine.rs:221-229 | the transition table, by state |
| OrderLifecycle.NewOrderIs | src/oms/order_state_machine.rs:140-177 | a new order is pending, unfilled and unstamped, with all of its quantity remaining |
| OrderLifecycle.TimeoutCancelsIff | src/oms/order_state_machine.rs:520-548 | a timed-out order always gets its error code and is cancelled if and only if it was submitted |
| OrderLifecycle.SweepIff | src/oms/order_state_machine.rs:520-548 | a sweep cancels an order in the market exactly if it is named, has a deadline and the deadline has come; it then stamps time and error code and keeps the rest |
| OrderLifecycle.SweepLeaves | src/oms/order_state_machine.rs:520-548 | a finished order and an empty slot are left alone, an expired pending order only gets the error code |
| OrderLifecycle.StepKeepsLifecycle | src/oms/order_state_machine.rs:197-271 | one event or sweep, other than an accepted fill that leaves the u64 filled quantity at 0, keeps the agreement of state and quantities, and leaves state and fills of a terminal order alone |
| OrderLifecycle.LifecycleKeptIff | src/oms/order_state_machine.rs:197-271 | from an order whose state agrees with its quantities, any event or sweep keeps the agreement if and only if it is not an accepted fill that leaves the filled quantity at 0 modulo 2^64 |
| OrderLifecycle.RunKeepsLifecycle | src/oms/order_state_machine.rs:197-271 | in every run whose accepted fills each leave a non-zero filled quantity: unfilled before the first fill, partly filled strictly between, Filled exactly when filled reaches quantity, remaining is the difference |
| OrderLifecycle.RunLifecycleIff | src/oms/order_state_machine.rs:197-271 | this agreement holds at every moment of a run if and only if it holds at the start and every accepted fill leaves a non-zero filled quantity |
| OrderLifecycle.PositiveFillsMove | src/oms/order_state_machine.rs:233-271 | runs of positive fills that fit the u64 counter satisfy that condition |
| OrderLifecycle.ZeroFillBreaksLifecycle | src/oms/order_state_machine.rs:233-271 | an instance outside it: a new order submitted and filled by 0 is partly filled with nothing filled |
| OrderLifecycle.TerminalIsFinal | src/oms/order_state_machine.rs:45-54 | once terminal, an order never changes state or fill fields again, in any run and whatever its fields |
| OrderLifecycle.FillFieldsAreAccepted | src/oms/order_state_machine.rs:233-271 | after any run whose accepted fills fit the u64 counter, filled quantity, average and fill count are those of the accepted fills |
| OrderLifecycle.AverageWithinPrices | src/oms/order_state_machine.rs:243-251 | once something is filled, and while the counter does not overflow, the stored average lies between the lowest and highest fill price |
| OrderLifecycle.RoundingBounded | src/oms/order_state_machine.rs:243-251 | after n fills of value V and quantity F, 0 < F < 2^64, the error V - average * F is between 0 and (n - 1) * (F - 1) |
| OrderStateMachine.Order.constructor | src/oms/order_state_machine.rs:142-176 | a new order is pending and unfilled |
| OrderStateMachine.Order.TransitionTo | src/oms/order_state_machine.rs:197-217 | the state and update time change exactly on a valid transition |
| OrderStateMachine.Order.ProcessFill | src/oms/order_state_machine.rs:233-271 | the fields change as the function Fill says, refused fills change nothing |
| OrderStateMachine.Order.Handle | src/oms/order_state_machine.rs:473-516 | each event changes the order as the function Process says, with the fields it sets even when the transition is refused |
| OrderStateMachine.Order.CheckTimeout | src/oms/order_state_machine.rs:528-545 | one order's part of the sweep, and whether it is counted |
| OrderStateMachine.Manager.constructor | src/oms/order_state_machine.rs:387-400 | all slots hold distinct empty orders |
| OrderStateMachine.Manager.CreateOrder | src/oms/order_state_machine.rs:410-454 | fails exactly when every slot is taken; otherwise one empty slot gets a fresh pending order under the next id, no other slot changes, and live ids stay distinct |
| OrderStateMachine.Manager.FindSlot | src/oms/order_state_machine.rs:458-469 | finds the slot with that live id; None means there is none |
| OrderStateMachine.Manager.ProcessEvent | src/oms/order_state_machine.rs:473-516 | the event reaches exactly the order with that id and its answer is returned; unknown ids are refused |
| OrderStateMachine.Manager.CheckTimeouts | src/oms/order_state_machine.rs:520-548 | every order is swept once and the result counts the timed-out ones; nothing happens when disabled |
| OrderStateMachine.ReportedIsCancelledPlusStuck | src/oms/order_state_machine.rs:520-548 | the reported number is the orders moved to SystemCancelled plus the expired pending ones that could not be moved |
| MarkowitzSolver.IndexInBounds | src/portfolio/markowitz_solver.rs:86-89 | every pair of assets has a cell inside the array, the same for both orders |
| MarkowitzSolver.InjectiveIff | src/portfolio/markowitz_solver.rs:86-89 | no two pairs share a cell if and only if there are at most 62 assets |
| MarkowitzSolver.DiagonalInBoundsIff | src/portfolio/markowitz_solver.rs:77-88 | a diagonal index lands inside the array if and only if it is at most 125; beyond that the expression is negative |
| MarkowitzSolver.DiagonalAliasIff | src/portfolio/markowitz_solver.rs:77-88 | two diagonal indices hit one cell if and only if they are equal or add up to 125 |
| MarkowitzSolver.ReadAfterWrite | src/portfolio/markowitz_solver.rs:71-89 | up to 62 assets, writing a pair changes what is read for that pair only |
| MarkowitzSolver.ShrinkTouchesOnce | src/portfolio/markowitz_solver.rs:106-120 | up to 62 assets the double loop shrinks every pair's cell exactly once |
| MarkowitzSolver.ShrinkLeavesOthers | src/portfolio/markowitz_solver.rs:106-120 | cells of no pair are left alone, for any number of assets |
| MarkowitzSolver.TargetIsMean | src/portfolio/markowitz_solver.rs:97-103 | for up to 64 assets with variances within the limit the shrinkage target is the truncated mean of the diagonal: times n it is at most their sum and less than n short of it |
| MarkowitzSolver.ShrinkageBlends | src/portfolio/markowitz_solver.rs:93-121 | for up to 62 assets, any intensity in [0, SCALE] and cells within the limit, every variance becomes the floored blend of its old value with the mean variance, every covariance the blend with 0 |
| MarkowitzSolver.ShrinkKeepsVariances | src/portfolio/markowitz_solver.rs:93-121 | up to 62 assets, for variances in a range up to the limit 92233720368 (about 922.3) and intensity in [0, SCALE], every shrunk variance stays in that range |
| MarkowitzSolver.ShrinkKeepsIff | src/portfolio/markowitz_solver.rs:93-121 | shrinkage keeps every matrix with variances in a range within it if and only if the range ends at or below that limit |
| MarkowitzSolver.CovarianceShrinks | src/portfolio/markowitz_solver.rs:114-118 | a covariance of magnitude up to the limit keeps its sign and never grows in magnitude |
| MarkowitzSolver.CovarianceShrinksIff | src/portfolio/markowitz_solver.rs:114-118 | so does every covariance of magnitude up to a bound if and only if the bound is at most the limit |
| MarkowitzSolver.ShrunkAtEnds | src/portfolio/markowitz_solver.rs:109-118 | within the limit, at full intensity variances become the average and covariances 0, at none every cell stays |
| MarkowitzSolver.ShrunkAtEndsIff | src/portfolio/markowitz_solver.rs:109-118 | at no intensity a cell stays if and only if its magnitude is within the limit; at full intensity a variance becomes the average if and only if the average is |
| MarkowitzSolver.MoreShrinkageIsCloser | src/portfolio/markowitz_solver.rs:109-113 | for a variance and an average within the limit, more intensity never moves the variance away from the average, nor across it |
| MarkowitzSolver.MoreShrinkageIsCloserIff | src/portfolio/markowitz_solver.rs:109-113 | so it is for all variances and averages up to a bound if and only if the bound is at most the limit |
| MarkowitzSolver.InverseInRangeIff | src/portfolio/markowitz_solver.rs:142-155 | the inverse variance keeps weight products in i64 if and only if the variance is non-positive or at least 108421 |
| MarkowitzSolver.WeightsAreSound | src/portfolio/markowitz_solver.rs:152-164 | with every inverse variance small enough for i64 products, the weights sum to SCALE if and only if some inverse variance is positive; then each is in [0, SCALE], all but the last are the floored shares and the last exceeds its share by at most n - 1 |
| MarkowitzSolver.SmallVariancesOverflow | src/portfolio/markowitz_solver.rs:142-164 | two assets of variance 0.001 get weights of about -42% and +142% |
| MarkowitzSolver.WeightsInRangeIff | src/portfolio/markowitz_solver.rs:142-164 | for all variances whose positive ones are at least a floor, some inverse being positive, the weights lie in [0, SCALE] if and only if the floor is at least 108421 |
| MarkowitzSolver.OptimizeIsSound | src/portfolio/markowitz_solver.rs:93-169 | end to end, for up to 62 assets with variances from 108421 to 92233720368: shrinkage, inversion and normalisation give weights in [0, SCALE] that sum to SCALE |
| MarkowitzSolver.CeilingFails | src/portfolio/markowitz_solver.rs:93-169 | on the flat matrix with every variance one unit above the limit, up to 62 assets at any intensity get weights that sum to 0 |
| MarkowitzSolver.OptimizeSoundIff | src/portfolio/markowitz_solver.rs:93-169 | for 2 to 62 assets and any intensity in [0, SCALE], every matrix with variances from a floor (positive, at most the limit) to a ceiling (at least 108421) gives such weights if and only if the floor is at least 108421 and the ceiling at most 92233720368 |
| MarkowitzSolver.OptimalWeightsAre | src/portfolio/markowitz_solver.rs:93-169 | for up to 62 assets with variances from 108421 to 92233720368, all weights but the last are the floored shares of the inverse blended variances in their sum, and the last makes up the scale |
| MarkowitzSolver.SharesAreFloors | src/portfolio/markowitz_solver.rs:154-157 | within that range each share is the floor of the asset's part of the scale |
| MarkowitzSolver.LowerVarianceMoreWeight | src/portfolio/markowitz_solver.rs:126-169 | within that range an asset other than the last never gets more weight than one whose inverse variance is at least as large |
| MarkowitzSolver.Optimizer.constructor | src/portfolio/markowitz_solver.rs:43-57 | no assets, half intensity |
| MarkowitzSolver.Optimizer.SetExpectedReturn | src/portfolio/markowitz_solver.rs:60-67 | writes one return and grows the asset count; bad indices change nothing |
| MarkowitzSolver.Optimizer.SetCovariance | src/portfolio/markowitz_solver.rs:71-82 | writes the cell of an ordered known pair or of a diagonal; a diagonal index from 64 to 125 overwrites the variance of asset 125 - i, and one beyond panics |
| MarkowitzSolver.Optimizer.ApplyShrinkage | src/portfolio/markowitz_solver.rs:93-121 | the in-place double loop is the shrinkage of the old matrix toward its own average variance; within the limit every variance is blended with the mean and every covariance with 0 |
| MarkowitzSolver.Optimizer.Optimize | src/portfolio/markowitz_solver.rs:126-169 | false exactly below two assets, without effect; otherwise the matrix is shrunk and the weights are those of its inverse variances; for up to 62 assets with variances from 108421 to 92233720368 and intensity in [0, SCALE] they are in [0, SCALE], sum to SCALE and are the floored shares of the inverse blended variances |
| IcebergHandler.NewIsSound | src/execution/iceberg_handler.rs:205-268 | a new order conserves quantity and shows between 1 and its display size |
| IcebergHandler.NewOrderIs | src/execution/iceberg_handler.rs:205-268 | a new order has the given identity, is active and unfilled, and shows the smaller of its display size and its total |
| IcebergHandler.DisplayIsShare | src/execution/iceberg_handler.rs:264-268 | with a ratio of at most one whole the display size that is meant is the floored share in basis points, at least 1 and at most the total |
| IcebergHandler.DisplayExactIff | src/execution/iceberg_handler.rs:264-268 | the computed display size is the one that is meant if and only if total times ratio fits a u64 |
| IcebergHandler.FillConservesIff | src/execution/iceberg_handler.rs:292-350 | a fill of a live order that does not overflow its u64 counter keeps filled + visible + hidden equal to the total if and only if it is no larger than what remains, and completes it exactly when it takes all of that |
| IcebergHandler.FillShows | src/execution/iceberg_handler.rs:292-390 | a positive fill within what remains of a live order: below the displayed amount it leaves exactly the rest of it on display, otherwise the smaller of the display size and the unfilled quantity is shown; the order is completed exactly by the last unit, else partly filled |
| IcebergHandler.EmptyFill | src/execution/iceberg_handler.rs:292-350 | a fill of nothing changes at most the state |
| IcebergHandler.RunIsSound | src/execution/iceberg_handler.rs:292-350 | in every run of positive fills within the total, quantity is conserved, an unfinished order shows between 1 and its display size, and completion is exactly filled = total |
| IcebergHandler.TrancheRunsDown | src/execution/iceberg_handler.rs:292-350 | after any run of partial fills within one tranche the displayed amount is the tranche less their sum |
| IcebergHandler.TranchesFill | src/execution/iceberg_handler.rs:292-350 | after k full tranches exactly min(k * display, total) is filled |
| IcebergHandler.CompletesInCeil | src/execution/iceberg_handler.rs:292-350 | filling each displayed tranche completes the order at exactly ceil(total / display) fills |
| IcebergHandler.ActiveCountIff | src/execution/iceberg_handler.rs:312-318 | a positive fill that does not overflow the counter of an order that is complete only when filled moves num_active in step with the live orders if and only if it hits a live one |
| IcebergHandler.CancelCountIff | src/execution/iceberg_handler.rs:402-418 | a cancellation moves num_active in step with the live orders if and only if the slot was live |
| IcebergHandler.Handler.constructor | src/execution/iceberg_handler.rs:188-201 | no orders, none active |
| IcebergHandler.Handler.FindEmpty | src/execution/iceberg_handler.rs:217-227 | the branch-free scan keeps the first empty slot |
| IcebergHandler.Handler.CreateIceberg | src/execution/iceberg_handler.rs:205-260 | refused exactly for zero quantity, zero price or a full table; otherwise one empty slot gets the new order, and for a non-zero id num_active still counts the live orders |
| IcebergHandler.Handler.ProcessLevelFill | src/execution/iceberg_handler.rs:292-350 | only our fills on a valid slot change anything, and only that slot; fills within what remains of a live order keep the table sound and counted |
| IcebergHandler.Handler.CancelOrder | src/execution/iceberg_handler.rs:402-418 | cancels exactly slots that are neither completed nor cancelled, changing that slot only; the table stays sound and counted if and only if a cancelled slot was live |
| CorePinner.SetInserts | src/hardware/core_pinner.rs:51-57 | or-ing one bit into its word inserts that CPU and no other |
| CorePinner.ClearRemoves | src/hardware/core_pinner.rs:61-67 | and-ing with the complement removes that CPU and no other |
| CorePinner.CpuSet.constructor | src/hardware/core_pinner.rs:35-39 | the empty set |
| CorePinner.CpuSet.Set | src/hardware/core_pinner.rs:51-57 | set insertion, ignored out of range |
| CorePinner.CpuSet.Clear | src/hardware/core_pinner.rs:61-67 | set removal, ignored out of range |
| CorePinner.CpuSet.IsSet | src/hardware/core_pinner.rs:71-78 | set membership |
| CorePinner.RangesAreExact | src/hardware/core_pinner.rs:250-289 | the ranges built from any set cover exactly that set, ascending, disjoint and maximal |
| CorePinner.CanonicalIsUnique | src/hardware/core_pinner.rs:250-289 | a set has only one such range list |
| CorePinner.RenderRoundTrip | src/hardware/core_pinner.rs:256-289 | the comma-and-dash text of any range list reads back as that list |
| CorePinner.KernelNotation | src/hardware/core_pinner.rs:256-289 | CPUs 0 to 3 and 8 are written 0-3,8 |
| CorePinner.TextDecodesToSet | src/hardware/core_pinner.rs:250-289 | the text of any CPU set reads back as canonical ranges of exactly that set |
| CorePinner.BuildCpuList | src/hardware/core_pinner.rs:250-289 | the one-pass loop with an open range writes the text of the set's ranges |
| BtcMempool.MinRateMonotone | src/network_health/btc_mempool.rs:198-208 | minimum feerates never fall from one bucket to the next |
| BtcMempool.MinRateDoubles | src/network_health/btc_mempool.rs:198-208 | the first four buckets start at 1 and the minimum feerate doubles every four buckets |
| BtcMempool.ScanFinds | src/network_health/btc_mempool.rs:321-329 | while the buckets hold all entries the scan finds the first bucket that reaches the threshold |
| BtcMempool.EstimateMonotone | src/network_health/btc_mempool.rs:307-332 | the estimate never rises with the target while ten times the target fits a u32 |
| BtcMempool.EstimateByPercentile | src/network_health/btc_mempool.rs:307-332 | within the product's range the estimate is the rate of the bucket before which fewer, and up to which at least, the floored (100 - 10 * target)%, but at least 10%, of all entries are counted |
| BtcMempool.WrappedTargetRaises | src/network_health/btc_mempool.rs:315-319 | a histogram on which the first wrapped target raises the estimate |
| BtcMempool.MonotoneIff | src/network_health/btc_mempool.rs:307-332 | estimates are monotone for all histograms up to a target cap if and only if ten times the cap fits a u32 |
| BtcMempool.BucketIsStoredIff | src/network_health/btc_mempool.rs:237-300 | a bucket count is the number of its entries still stored if and only if all entries ever added to it are |
| BtcMempool.HistogramAfterIff | src/network_health/btc_mempool.rs:237-300 | after any run of additions and removals the histogram is that of the stored entries if and only if every accepted addition had a non-zero id hash and every removal named a slot not yet filled |
| BtcMempool.RoomIsNeverRegained | src/network_health/btc_mempool.rs:237-286 | however many entries are removed, a tracker accepts exactly the first 4096 additions |
| BtcMempool.Tracker.constructor | src/network_health/btc_mempool.rs:196-232 | an empty tracker whose totals match its entries |
| BtcMempool.Tracker.AddEntry | src/network_health/btc_mempool.rs:237-259 | refused exactly when full, and then without effect; otherwise the next slot and one bucket count change, and bucket counts are those of all additions and sum to the entry count |
| BtcMempool.Tracker.RemoveEntry | src/network_health/btc_mempool.rs:263-286 | blanks one named entry and keeps both totals those of the stored entries; bucket counts and entry count stay |
| BtcMempool.Tracker.EstimateFeerate | src/network_health/btc_mempool.rs:307-332 | the accumulating loop returns the estimate of the bucket counts |
| BitOps.MaskIsMod | src/normalization/symbol_mapper.rs:180 | masking with 2^k - 1 is the remainder by 2^k |
| BitOps.MaskClearsLow | src/hardware/numa_allocator.rs:120 | masking with the complement of 2^k - 1 subtracts the remainder by 2^k |

## Left out

- Memory orderings weaker than sequential consistency: each atomic operation is one indivisible step.
- Event ring sequence numbers do not wrap at 2^64, and the ring size is below 2^64 - 1.
- Two overlapping insertions into the symbol table, whose claim of a bucket is not atomic, and overlapping calls to orders and iceberg handlers: these run one at a time, so the failed compare-and-swap in `transition_to` is not covered.
- SymbolReaders.LookupsAreAtomic: the inserting thread's own probe with its id counter is one step, and the bytes of a symbol are copied, and compared, in one step.
- IdempotencyRace.StepKeepsInv: the strategy and timestamp stores of a claim, which no check reads, are left out.
- Clocks, `_rdtsc`, mmap, affinity calls, `/proc` writes, padding and size assertions. A range granted by the pool is an offset, aligned relative to the pool's base address.
- NumaAllocator.RunIsSafe: covers runs in which every request fits a machine word behind the end of the pool; RunSafeIff shows that this is exactly the safe limit.
- RateLimiter.RefusedIff: covers refills that fit a u64 and capacities below 2^64 - 2^32, as do RefillAddsIff and StarvesIff; overflow of the product is characterised by RefillExactIff.
- Overflow of u64 volumes, totals, identifiers, counts and expiry times, and of the i64 price arithmetic of the volume profile and of the final band additions. `num_active` of the iceberg handler is a plain integer.
- StreamingTa.EmaStaysInRange: covers prices for which no product overflows; EmaExactIff says exactly when one does.
- RollingWindow.RunningSumExact: covers prices whose window cannot saturate the sum; RunningSumExactIff shows that this is exact.
- MarkowitzSolver.WeightsAreSound: covers inverse variances whose products fit an i64, as do SharesAreFloors and LowerVarianceMoreWeight; WeightsInRangeIff says exactly from which variance on that is so, and OptimizeSoundIff for which range of variances the whole optimisation is sound.
- BtcMempool.Tracker.AddEntry: the bucket chosen by the float logarithm is a parameter; the per-bucket total size and the timestamp are not modelled.
- VolumeProfile.Profile.CalculateValueArea: the float product of total volume and percentage is an abstract natural target, and the percentage field of the result is dropped.
- VolatilityBands.Bollinger.Update: bandwidth, %B and the squeeze flag are not modelled.
- RateLimiter.Limiter.TryAcquire: the rejected count and the timing-wheel position are not modelled.
- RateLimiter.Limiter.Reset: the timing-wheel position is not modelled.
- SymbolMapper.Mapper.GetOrInsert: the unused value computed from a name that is not in scope at `src/normalization/symbol_mapper.rs:237` is dropped; no code path stores the tombstone, so the tombstone test is kept but never true.
- IdempotencyKey.DuplicateCaughtIff: covers runs without `clear_old_entries`, which punches holes into probe paths.
- FixMarketData.ProcessMdIncremental: timestamps and the remaining constant fields of an event are not modelled; which pushes the ring accepts is a parameter.
- FIX checksum validation, session handling, `parse_int` and the other gateways.
- OrderStateMachine.Order.constructor: instrument, strategy, side, price, venue, time in force and flags are not modelled, and neither is `reset_all`.
- MarkowitzSolver.Optimizer.Optimize: the Sharpe ratio and the AVX2 path are not modelled.
- IcebergHandler.Handler.ProcessLevelFill: queue positions, fill rates and fill-time estimates are not modelled; fills on dead orders are characterised by ActiveCountIff only.
- Mempool metrics, congestion and settlement risk; the other buffers and rolling statistics of the repository, which repeat the ring and window arguments; the floating-point models.
