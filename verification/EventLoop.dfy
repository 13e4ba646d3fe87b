/** The single-producer single-consumer event ring, one step per atomic operation. */
module EventLoop {
  import opened Machine

  // The steps are the atomic operations of `publish`, `consume` and `consume_batch`; those of the
  // two sides interleave freely. `n` is the ring size, and sequence numbers do not wrap.

  datatype EventType = MarketData | OrderSubmission | OrderCancellation | OrderFill | Heartbeat | SystemSignal

  datatype Event = Event(
    eventType: EventType,
    sequence: nat,
    timestampNs: nat,
    payloadSize: nat,
    symbolId: nat,
    payload: seq<nat>)

  const EMPTY_EVENT := Event(Heartbeat, 0, 0, 0, 0, seq(32, _ => 0))

  datatype Slot = Slot(event: Event, sequence: nat)

  /** Where the producer is inside `publish`. */
  datatype Producer =
    | Idle
    | Reserved(event: Event, seqNo: nat)   // after fetch_add, before the consumer load
    | Refused(seqNo: nat)                  // full check failed, before fetch_sub
    | Writing(event: Event, seqNo: nat)    // full check passed, before the slot write
    | Written(event: Event, seqNo: nat)    // before the slot's sequence is stored
    | Counting(seqNo: nat)                 // before total_published is bumped

  /** Where the consumer is inside `consume` (`single`) or `consume_batch`. */
  datatype Consumer =
    | Waiting
    | Loaded(single: bool, maxCount: nat, base: nat)   // consumer_seq loaded
    | Spinning(base: nat, count: nat, batch: nat)      // polling the next slot
    | Ready(base: nat, count: nat, batch: nat)         // saw the slot published
    | Drained(base: nat, count: nat)                   // before consumer_seq is advanced
    | Tallying(count: nat)                             // before total_consumed is bumped

  datatype State = State(
    slots: seq<Slot>,
    producerSeq: nat,
    consumerSeq: nat,
    totalPublished: nat,
    totalConsumed: nat,
    producer: Producer,
    consumer: Consumer,
    published: seq<Event>,   // history: events marked ready, in order
    delivered: seq<Event>)   // history: events handed to the consumer, in order

  datatype Step =
    | Publish(event: Event)
    | CheckFull
    | RollBack
    | WriteSlot
    | MarkReady
    | CountPublished
    | BeginConsume(single: bool, maxCount: nat)
    | LoadProducer
    | PollSlot
    | ReadSlot
    | Advance
    | CountConsumed

  function Init(n: nat): State {
    State(seq(n, _ => Slot(EMPTY_EVENT, 0)), 0, 0, 0, 0, Idle, Waiting, [], [])
  }

  /** A step can be taken when its actor has arrived at it. */
  predicate Enabled(s: State, step: Step) {
    match step
    case Publish(_) => s.producer.Idle?
    case CheckFull => s.producer.Reserved?
    case RollBack => s.producer.Refused?
    case WriteSlot => s.producer.Writing?
    case MarkReady => s.producer.Written?
    case CountPublished => s.producer.Counting?
    case BeginConsume(_, _) => s.consumer.Waiting?
    case LoadProducer => s.consumer.Loaded?
    case PollSlot => s.consumer.Spinning?
    case ReadSlot => s.consumer.Ready?
    case Advance => s.consumer.Drained?
    case CountConsumed => s.consumer.Tallying?
  }

  function Index(s: State, k: nat): (i: nat)
    requires |s.slots| > 0
    ensures i < |s.slots|
  {
    k % |s.slots|
  }

  /** One atomic operation. */
  function Apply(s: State, step: Step): State
    requires |s.slots| > 0 && Enabled(s, step)
  {
    match step
    case Publish(e) =>
      s.(producerSeq := s.producerSeq + 1, producer := Reserved(e, s.producerSeq))
    case CheckFull =>
      if WrapSub(s.producer.seqNo, s.consumerSeq) >= |s.slots|
      then s.(producer := Refused(s.producer.seqNo))
      else s.(producer := Writing(s.producer.event, s.producer.seqNo))
    case RollBack =>
      s.(producerSeq := if s.producerSeq > 0 then s.producerSeq - 1 else U64 - 1, producer := Idle)
    case WriteSlot =>
      var i := Index(s, s.producer.seqNo);
      s.(slots := s.slots[i := s.slots[i].(event := s.producer.event)],
         producer := Written(s.producer.event, s.producer.seqNo))
    case MarkReady =>
      var i := Index(s, s.producer.seqNo);
      s.(slots := s.slots[i := s.slots[i].(sequence := s.producer.seqNo + 1)],
         producer := Counting(s.producer.seqNo),
         published := s.published + [s.producer.event])
    case CountPublished =>
      s.(totalPublished := s.totalPublished + 1, producer := Idle)
    case BeginConsume(single, maxCount) =>
      s.(consumer := Loaded(single, maxCount, s.consumerSeq))
    case LoadProducer =>
      var base := s.consumer.base;
      var batch := if s.consumer.single
                   then (if base >= s.producerSeq then 0 else 1)
                   else Min(WrapSub(s.producerSeq, base), s.consumer.maxCount);
      s.(consumer := if batch == 0 then Waiting else Spinning(base, 0, batch))
    case PollSlot =>
      var Spinning(base, count, batch) := s.consumer;
      if s.slots[Index(s, base + count)].sequence < base + count + 1 then s
      else s.(consumer := Ready(base, count, batch))
    case ReadSlot =>
      var Ready(base, count, batch) := s.consumer;
      s.(delivered := s.delivered + [s.slots[Index(s, base + count)].event],
         consumer := if count + 1 < batch then Spinning(base, count + 1, batch) else Drained(base, count + 1))
    case Advance =>
      s.(consumerSeq := s.consumerSeq + s.consumer.count, consumer := Tallying(s.consumer.count))
    case CountConsumed =>
      s.(totalConsumed := s.totalConsumed + s.consumer.count, consumer := Waiting)
  }

  /** The state after a schedule, or None if some step of it was not enabled. */
  function Run(s: State, steps: seq<Step>): Option<State>
    requires |s.slots| > 0
    decreases |steps|
  {
    if steps == [] then Some(s)
    else if !Enabled(s, steps[0]) then None
    else Run(Apply(s, steps[0]), steps[1..])
  }

  /** The unconsumed events: the abstract FIFO queue. */
  function Queue(s: State): seq<Event>
    requires |s.delivered| <= |s.published|
  {
    s.published[|s.delivered|..]
  }

  // ---------------------------------------------------------------- the invariant

  ghost predicate ProducerInv(s: State)
    requires 0 < |s.slots|
  {
    var n, total := |s.slots|, |s.published|;
    match s.producer
    case Idle => s.producerSeq == total && s.totalPublished == total
    case Counting(k) => s.producerSeq == total && s.totalPublished + 1 == total == k + 1
    case Reserved(_, k) => k == total && s.producerSeq == total + 1 && s.totalPublished == total
    case Refused(k) => k == total && s.producerSeq == total + 1 && s.totalPublished == total
    case Writing(_, k) =>
      k == total && s.producerSeq == total + 1 && s.totalPublished == total && total < s.consumerSeq + n
    case Written(e, k) =>
      && k == total && s.producerSeq == total + 1 && s.totalPublished == total && total < s.consumerSeq + n
      && s.slots[Index(s, k)].event == e
  }

  ghost predicate ConsumerInv(s: State)
    requires s.consumerSeq <= |s.published|
  {
    var total := |s.published|;
    match s.consumer
    case Waiting => s.totalConsumed == s.consumerSeq && s.delivered == s.published[..s.consumerSeq]
    case Loaded(_, _, base) =>
      base == s.consumerSeq == s.totalConsumed && s.delivered == s.published[..s.consumerSeq]
    case Spinning(base, count, batch) =>
      && base == s.consumerSeq == s.totalConsumed && count < batch && base + count <= total
      && base + batch <= total + 1 && s.delivered == s.published[..base + count]
    case Ready(base, count, batch) =>
      && base == s.consumerSeq == s.totalConsumed && count < batch && base + count < total
      && base + batch <= total + 1 && s.delivered == s.published[..base + count]
    case Drained(base, count) =>
      && base == s.consumerSeq == s.totalConsumed && 0 < count && base + count <= total
      && s.delivered == s.published[..base + count]
    case Tallying(count) =>
      s.totalConsumed + count == s.consumerSeq && s.delivered == s.published[..s.consumerSeq]
  }

  /** Published, unreleased events sit in their slots; no slot claims a later event. */
  ghost predicate SlotsInv(s: State)
    requires 0 < |s.slots|
  {
    var n, total := |s.slots|, |s.published|;
    && (forall i :: 0 <= i < n ==> s.slots[i].sequence <= total)
    && (forall k: nat :: total - n <= k < total ==> s.slots[Index(s, k)].sequence == k + 1)
    && (forall k: nat :: s.consumerSeq <= k < total ==> s.slots[Index(s, k)].event == s.published[k])
  }

  ghost predicate Inv(s: State) {
    && 0 < |s.slots| < U64 - 1
    && s.consumerSeq <= |s.published| <= s.consumerSeq + |s.slots|
    && ProducerInv(s)
    && ConsumerInv(s)
    && SlotsInv(s)
  }

  // ---------------------------------------------------------------- every step keeps it

  lemma InitInv(n: nat)
    requires 0 < n < U64 - 1
    ensures Inv(Init(n))
  {
  }

  lemma WrapSubReading(p: nat, c: nat, bound: nat)
    requires p - c <= bound < U64 && c - p < U64 - bound
    ensures WrapSub(p, c) <= bound <==> c <= p
    ensures c <= p ==> WrapSub(p, c) == p - c
  {
    if c <= p {
      DivUnique(p - c, U64, 0, p - c);
    } else {
      DivUnique(p - c, U64, -1, p - c + U64);
    }
  }

  lemma FullCheckExact(s: State)
    requires Inv(s) && s.producer.Reserved?
    ensures WrapSub(s.producer.seqNo, s.consumerSeq) == |s.published| - s.consumerSeq
  {
  }

  /** Moving the producer alone disturbs neither the consumer nor the slots. */
  lemma ProducerMoveKeepsRest(s: State, t: State)
    requires Inv(s)
    requires t == s.(producer := t.producer, producerSeq := t.producerSeq, totalPublished := t.totalPublished)
    ensures ConsumerInv(t) && SlotsInv(t)
  {
    assert forall k: nat :: Index(t, k) == Index(s, k);
  }

  lemma ProducerStepKeepsInv(s: State, step: Step)
    requires Inv(s) && Enabled(s, step)
    requires step.Publish? || step.CheckFull? || step.RollBack? || step.CountPublished?
    ensures Inv(Apply(s, step))
  {
    ProducerMoveKeepsRest(s, Apply(s, step));
    if step.CheckFull? {
      FullCheckExact(s);
    }
  }

  /** Releasing slots never invalidates what the producer and the slots rely on. */
  lemma ReleaseKeepsRest(s: State, t: State)
    requires Inv(s) && t.consumerSeq <= |t.published|
    requires t == s.(consumerSeq := t.consumerSeq, totalConsumed := t.totalConsumed, consumer := t.consumer, delivered := t.delivered)
    requires s.consumerSeq <= t.consumerSeq
    ensures ProducerInv(t) && SlotsInv(t)
  {
    assert forall k: nat :: Index(t, k) == Index(s, k);
  }

  lemma LoadKeepsInv(s: State)
    requires Inv(s) && s.consumer.Loaded?
    ensures Inv(Apply(s, LoadProducer))
  {
    var t := Apply(s, LoadProducer);
    WrapSubReading(s.producerSeq, s.consumer.base, |s.slots| + 1);
    ReleaseKeepsRest(s, t);
  }

  lemma PollKeepsInv(s: State)
    requires Inv(s) && s.consumer.Spinning?
    ensures Inv(Apply(s, PollSlot))
  {
    ReleaseKeepsRest(s, Apply(s, PollSlot));
  }

  lemma ReadKeepsInv(s: State)
    requires Inv(s) && s.consumer.Ready?
    ensures Inv(Apply(s, ReadSlot))
  {
    ReleaseKeepsRest(s, Apply(s, ReadSlot));
  }

  lemma ReleaseKeepsInv(s: State, step: Step)
    requires Inv(s) && Enabled(s, step)
    requires step.BeginConsume? || step.Advance? || step.CountConsumed?
    ensures Inv(Apply(s, step))
  {
    ReleaseKeepsRest(s, Apply(s, step));
  }

  /** The slot of the next sequence number holds no unreleased event. */
  lemma NextSlotIsReleased(s: State, k: nat)
    requires Inv(s) && |s.published| < s.consumerSeq + |s.slots|
    requires s.consumerSeq <= k < |s.published|
    ensures Index(s, k) != Index(s, |s.published|)
  {
    ModDistinct(k, |s.published|, |s.slots|);
  }

  lemma WriteKeepsSlots(s: State, t: State)
    requires Inv(s) && s.producer.Writing? && t == Apply(s, WriteSlot)
    ensures SlotsInv(t)
  {
    assert forall k: nat :: Index(t, k) == Index(s, k);
    assert forall i :: 0 <= i < |s.slots| ==> t.slots[i].sequence == s.slots[i].sequence;
    forall k: nat | s.consumerSeq <= k < |s.published|
      ensures t.slots[Index(t, k)].event == s.published[k]
    {
      NextSlotIsReleased(s, k);
    }
  }

  lemma WriteKeepsInv(s: State)
    requires Inv(s) && s.producer.Writing?
    ensures Inv(Apply(s, WriteSlot))
  {
    var t := Apply(s, WriteSlot);
    WriteKeepsSlots(s, t);
    assert Index(t, t.producer.seqNo) == Index(s, s.producer.seqNo);
  }

  lemma MarkReadyKeepsSlots(s: State, t: State)
    requires Inv(s) && s.producer.Written? && t == Apply(s, MarkReady)
    ensures SlotsInv(t)
  {
    var n, total := |s.slots|, |s.published|;
    assert forall k: nat :: Index(t, k) == Index(s, k);
    forall k: nat | total + 1 - n <= k < total
      ensures t.slots[Index(t, k)] == s.slots[Index(s, k)]
    {
      ModDistinct(k, total, n);
    }
  }

  lemma MarkReadyKeepsInv(s: State)
    requires Inv(s) && s.producer.Written?
    ensures Inv(Apply(s, MarkReady))
  {
    MarkReadyKeepsSlots(s, Apply(s, MarkReady));
  }

  lemma StepKeepsInv(s: State, step: Step)
    requires Inv(s) && Enabled(s, step)
    ensures Inv(Apply(s, step))
  {
    match step
    case WriteSlot => WriteKeepsInv(s);
    case MarkReady => MarkReadyKeepsInv(s);
    case Publish(_) => ProducerStepKeepsInv(s, step);
    case CheckFull => ProducerStepKeepsInv(s, step);
    case RollBack => ProducerStepKeepsInv(s, step);
    case CountPublished => ProducerStepKeepsInv(s, step);
    case LoadProducer => LoadKeepsInv(s);
    case PollSlot => PollKeepsInv(s);
    case ReadSlot => ReadKeepsInv(s);
    case _ => ReleaseKeepsInv(s, step);
  }

  /** The invariant holds after every schedule from the empty ring. */
  lemma {:induction false} RunKeepsInv(s: State, steps: seq<Step>, t: State)
    requires Inv(s) && Run(s, steps) == Some(t)
    ensures Inv(t) && |t.slots| == |s.slots|
    decreases |steps|
  {
    if steps != [] {
      StepKeepsInv(s, steps[0]);
      RunKeepsInv(Apply(s, steps[0]), steps[1..], t);
    }
  }

  lemma RunCons(s: State, step: Step, rest: seq<Step>)
    requires 0 < |s.slots| && Enabled(s, step)
    ensures Run(s, [step] + rest) == Run(Apply(s, step), rest)
  {
    assert ([step] + rest)[1..] == rest;
  }

  lemma {:induction false} RunAppend(s: State, a: seq<Step>, b: seq<Step>)
    requires 0 < |s.slots|
    ensures Run(s, a).Some? ==> 0 < |Run(s, a).value.slots| && Run(s, a + b) == Run(Run(s, a).value, b)
    decreases |a|
  {
    if a == [] {
      assert a + b == b;
    } else if Enabled(s, a[0]) {
      assert (a + b)[1..] == a[1..] + b;
      RunAppend(Apply(s, a[0]), a[1..], b);
    }
  }

  // ---------------------------------------------------------------- main results

  /**
   In every interleaving, the events handed over are a prefix of the successfully
   published events in order, neither counter overtakes the other, at most `n` events
   are unreleased, and each of those is still in its slot.
   */
  lemma RunIsSafe(n: nat, steps: seq<Step>, t: State)
    requires 0 < n < U64 - 1 && Run(Init(n), steps) == Some(t)
    ensures t.delivered <= t.published
    ensures t.consumerSeq <= |t.delivered| <= |t.published| <= t.producerSeq
    ensures t.producerSeq <= |t.published| + 1 && |t.published| - t.consumerSeq <= n == |t.slots|
    ensures forall k: nat :: t.consumerSeq <= k < |t.published| ==> t.slots[k % n] == Slot(t.published[k], k + 1)
  {
    InitInv(n);
    RunKeepsInv(Init(n), steps, t);
    assert forall k: nat :: Index(t, k) == k % n;
  }

  lemma DeliveredIsPrefix(s: State)
    requires Inv(s)
    ensures s.delivered <= s.published && s.consumerSeq <= |s.delivered|
    ensures s.consumer.Ready? ==> |s.delivered| == s.consumer.base + s.consumer.count < |s.published|
  {
  }

  /** The slot that is read holds the oldest event not yet handed over. */
  lemma ReadTakesFront(s: State)
    requires Inv(s) && s.consumer.Ready?
    ensures |s.delivered| < |s.published|
    ensures Apply(s, ReadSlot).delivered == s.delivered + [s.published[|s.delivered|]]
  {
    var k := s.consumer.base + s.consumer.count;
    assert s.slots[Index(s, k)].event == s.published[k];
  }

  /** A step that leaves both logs alone leaves the queue alone. */
  lemma OtherStepsKeepLogs(s: State, step: Step)
    requires Inv(s) && Enabled(s, step) && !step.MarkReady? && !step.ReadSlot?
    ensures Apply(s, step).published == s.published && Apply(s, step).delivered == s.delivered
  {
  }

  lemma MarkReadyEnqueues(s: State)
    requires Inv(s) && s.producer.Written?
    ensures var t := Apply(s, MarkReady);
      && s.delivered <= s.published && t.delivered == s.delivered <= t.published
      && Queue(t) == Queue(s) + [s.producer.event]
  {
    DeliveredIsPrefix(s);
  }

  lemma ReadSlotDequeues(s: State)
    requires Inv(s) && s.consumer.Ready?
    ensures var t := Apply(s, ReadSlot);
      && s.delivered <= s.published && t.delivered <= t.published
      && Queue(s) != [] && Queue(t) == Queue(s)[1..] && t.delivered == s.delivered + [Queue(s)[0]]
  {
    DeliveredIsPrefix(s);
    ReadTakesFront(s);
  }

  /**
   Each atomic step is a FIFO queue operation: marking a slot ready enqueues at the back,
   reading a slot dequeues the front, and every other step leaves the queue alone.
   */
  lemma StepRefinesQueue(s: State, step: Step)
    requires Inv(s) && Enabled(s, step)
    ensures var t := Apply(s, step);
      && s.delivered <= s.published && t.delivered <= t.published
      && (match step
          case MarkReady => Queue(t) == Queue(s) + [s.producer.event] && t.delivered == s.delivered
          case ReadSlot =>
            Queue(s) != [] && Queue(t) == Queue(s)[1..] && t.delivered == s.delivered + [Queue(s)[0]]
          case _ => Queue(t) == Queue(s) && t.delivered == s.delivered)
  {
    match step
    case MarkReady => MarkReadyEnqueues(s);
    case ReadSlot => ReadSlotDequeues(s);
    case _ =>
      DeliveredIsPrefix(s);
      OtherStepsKeepLogs(s, step);
  }

  /** No step touches a slot that holds an event the consumer has not yet released. */
  lemma UnreleasedSlotsStable(s: State, step: Step, k: nat)
    requires Inv(s) && Enabled(s, step)
    requires s.consumerSeq <= k < |s.published|
    ensures Apply(s, step).slots[k % |s.slots|] == s.slots[k % |s.slots|]
  {
    if step.WriteSlot? || step.MarkReady? {
      NextSlotIsReleased(s, k);
    }
  }

  /**
   `publish` gives up exactly when `n` events are unreleased, and then the rollback
   restores the counter; otherwise its sequence number is the event's place in the log.
   */
  lemma RefusedExactlyWhenFull(s: State)
    requires Inv(s) && s.producer.Reserved?
    ensures var t := Apply(s, CheckFull);
      && (t.producer.Refused? <==> |s.published| - s.consumerSeq == |s.slots|)
      && (t.producer.Refused? ==> Apply(t, RollBack) == s.(producerSeq := |s.published|, producer := Idle))
      && (t.producer.Writing? ==>
            var u := Apply(Apply(t, WriteSlot), MarkReady);
            u.producer == Counting(|s.published|) && u.published == s.published + [s.producer.event])
  {
    FullCheckExact(s);
  }

  // ---------------------------------------------------------------- what a consumer takes

  /** How many sequence numbers are taken beyond the consumer's: a `publish` under way counts from its reservation on. */
  function Available(s: State): int {
    |s.published| - s.consumerSeq
    + (if s.producer.Reserved? || s.producer.Refused? || s.producer.Writing? || s.producer.Written? then 1 else 0)
  }

  /**
   Wherever the producer stands, a consumer gives up exactly when nothing is available or
   its batch limit is 0; otherwise a single consume takes one event and a batch the
   smaller of its limit and what is available.
   */
  lemma LoadTakes(s: State)
    requires Inv(s) && s.consumer.Loaded?
    ensures var t, limit := Apply(s, LoadProducer), if s.consumer.single then 1 else s.consumer.maxCount;
      && t == s.(consumer := t.consumer)
      && (t.consumer == Waiting <==> Available(s) == 0 || limit == 0)
      && (t.consumer != Waiting ==> t.consumer == Spinning(s.consumerSeq, 0, Min(limit, Available(s))))
  {
    assert s.producerSeq - s.consumerSeq == Available(s);
    WrapSubReading(s.producerSeq, s.consumerSeq, |s.slots| + 1);
  }

  /** A poll succeeds exactly when the awaited event has been published. */
  lemma PollSucceedsIff(s: State)
    requires Inv(s) && s.consumer.Spinning?
    ensures Apply(s, PollSlot).consumer.Ready? <==> s.consumer.base + s.consumer.count < |s.published|
  {
    var k := s.consumer.base + s.consumer.count;
    if k < |s.published| {
      assert s.slots[Index(s, k)].sequence == k + 1;
    } else {
      assert s.slots[Index(s, k)].sequence <= |s.published|;
    }
  }

  /** The state after the consumer has released everything up to event number `upTo`. */
  function Released(s: State, upTo: nat): State
    requires upTo <= |s.published|
  {
    s.(consumer := Waiting, consumerSeq := upTo, totalConsumed := upTo, delivered := s.published[..upTo])
  }

  predicate IsConsumerStep(step: Step) {
    step.BeginConsume? || step.LoadProducer? || step.PollSlot? || step.ReadSlot? || step.Advance? || step.CountConsumed?
  }

  lemma PollNext(s: State) returns (a: State)
    requires Inv(s) && s.consumer.Spinning? && s.consumer.base + s.consumer.count < |s.published|
    ensures a == Apply(s, PollSlot) && Inv(a)
    ensures a == s.(consumer := Ready(s.consumer.base, s.consumer.count, s.consumer.batch))
  {
    PollSucceedsIff(s);
    PollKeepsInv(s);
    a := Apply(s, PollSlot);
  }

  lemma ReadNext(a: State) returns (b: State)
    requires Inv(a) && a.consumer.Ready?
    ensures b == Apply(a, ReadSlot) && Inv(b)
    ensures b.delivered == a.delivered + [a.published[|a.delivered|]]
    ensures var Ready(base, count, batch) := a.consumer;
      b == a.(delivered := b.delivered,
              consumer := if count + 1 < batch then Spinning(base, count + 1, batch) else Drained(base, batch))
  {
    ReadTakesFront(a);
    ReadKeepsInv(a);
    b := Apply(a, ReadSlot);
  }

  /** One poll and one read. */
  lemma ReadEvent(s: State) returns (b: State)
    requires Inv(s) && s.consumer.Spinning? && s.consumer.base + s.consumer.count < |s.published|
    ensures Enabled(Apply(s, PollSlot), ReadSlot) && 0 < |Apply(s, PollSlot).slots|
    ensures b == Apply(Apply(s, PollSlot), ReadSlot) && Inv(b)
    ensures var Spinning(base, count, batch) := s.consumer;
      b == s.(delivered := b.delivered,
              consumer := if count + 1 < batch then Spinning(base, count + 1, batch) else Drained(base, batch))
  {
    var a := PollNext(s);
    b := ReadNext(a);
  }

  lemma RunTwo(s: State, first: Step, second: Step, rest: seq<Step>)
    requires 0 < |s.slots| && Enabled(s, first) && 0 < |Apply(s, first).slots| && Enabled(Apply(s, first), second)
    ensures Run(s, [first] + ([second] + rest)) == Run(Apply(Apply(s, first), second), rest)
  {
    RunCons(s, first, [second] + rest);
    RunCons(Apply(s, first), second, rest);
  }

  /** Polling, reading and releasing a batch that is all published, by consumer steps alone. */
  lemma {:induction false} FinishBatch(s: State) returns (steps: seq<Step>, t: State)
    requires Inv(s) && s.consumer.Spinning? && s.consumer.base + s.consumer.batch <= |s.published|
    ensures Run(s, steps) == Some(t) && forall step <- steps :: IsConsumerStep(step)
    ensures t == Released(s, s.consumer.base + s.consumer.batch)
    decreases s.consumer.batch - s.consumer.count
  {
    var b := ReadEvent(s);
    var rest;
    if s.consumer.count + 1 < s.consumer.batch {
      rest, t := FinishBatch(b);
    } else {
      rest, t := ReleaseBatch(b);
    }
    RunTwo(s, PollSlot, ReadSlot, rest);
    steps := [PollSlot] + ([ReadSlot] + rest);
  }

  lemma ReleaseBatch(b: State) returns (steps: seq<Step>, t: State)
    requires Inv(b) && b.consumer.Drained?
    ensures steps == [Advance, CountConsumed] && Run(b, steps) == Some(t)
    ensures t == Released(b, b.consumer.base + b.consumer.count)
  {
    var c := Apply(b, Advance);
    t := Apply(c, CountConsumed);
    steps := [Advance, CountConsumed];
    RunCons(c, CountConsumed, []);
    RunCons(b, Advance, [CountConsumed]);
  }

  lemma BeginBatch(s: State, single: bool, maxCount: nat) returns (a: State, b: State)
    requires Inv(s) && s.consumer.Waiting? && 0 < Min(if single then 1 else maxCount, Available(s))
    ensures a == Apply(s, BeginConsume(single, maxCount)) && a.consumer.Loaded? && Inv(a)
    ensures b == Apply(a, LoadProducer) && Inv(b)
    ensures b == s.(consumer := Spinning(s.consumerSeq, 0, Min(if single then 1 else maxCount, Available(s))))
  {
    a := Apply(s, BeginConsume(single, maxCount));
    ReleaseKeepsInv(s, BeginConsume(single, maxCount));
    LoadTakes(a);
    LoadKeepsInv(a);
    b := Apply(a, LoadProducer);
  }

  /**
   A `consume` or `consume_batch` that nothing interrupts hands over exactly the events it
   takes, in order, releases them, and changes nothing else.
   */
  lemma ConsumeRun(s: State, single: bool, maxCount: nat) returns (steps: seq<Step>, t: State)
    requires Inv(s) && s.consumer.Waiting?
    requires var k := Min(if single then 1 else maxCount, Available(s)); 0 < k && s.consumerSeq + k <= |s.published|
    ensures Run(s, steps) == Some(t) && (forall step <- steps :: IsConsumerStep(step))
    ensures steps != [] && steps[0] == BeginConsume(single, maxCount)
    ensures t == Released(s, s.consumerSeq + Min(if single then 1 else maxCount, Available(s)))
  {
    var a, b := BeginBatch(s, single, maxCount);
    var rest;
    rest, t := FinishBatch(b);
    RunCons(a, LoadProducer, rest);
    RunCons(s, BeginConsume(single, maxCount), [LoadProducer] + rest);
    steps := [BeginConsume(single, maxCount)] + ([LoadProducer] + rest);
  }

  /** On a ring with an unconsumed event a single consume hands over the oldest one. */
  lemma ConsumeOne(s: State, maxCount: nat) returns (t: State)
    requires Inv(s) && s.consumer.Waiting? && s.consumerSeq < |s.published|
    ensures Run(s, [BeginConsume(true, maxCount), LoadProducer, PollSlot, ReadSlot, Advance, CountConsumed]) == Some(t)
    ensures t.consumer.Waiting? && t.consumerSeq == s.consumerSeq + 1
    ensures t.delivered == s.delivered + [s.published[s.consumerSeq]] && t.published == s.published
  {
    var a, b := BeginBatch(s, true, maxCount);
    t := FinishOne(b);
    RunCons(a, LoadProducer, [PollSlot, ReadSlot, Advance, CountConsumed]);
    RunCons(s, BeginConsume(true, maxCount), [LoadProducer, PollSlot, ReadSlot, Advance, CountConsumed]);
  }

  lemma FinishOne(b: State) returns (t: State)
    requires Inv(b) && b.consumer == Spinning(b.consumerSeq, 0, 1) && b.consumerSeq < |b.published|
    ensures Run(b, [PollSlot, ReadSlot, Advance, CountConsumed]) == Some(t)
    ensures t.consumer.Waiting? && t.consumerSeq == b.consumerSeq + 1 && t.published == b.published
    ensures t.delivered == b.delivered + [b.published[b.consumerSeq]]
  {
    var c := PollNext(b);
    var d := ReadNext(c);
    var rest;
    rest, t := ReleaseBatch(d);
    RunCons(c, ReadSlot, rest);
    RunCons(b, PollSlot, [ReadSlot] + rest);
  }

  // ---------------------------------------------------------------- waiting and deadlock

  /** The consumer polls for an event that has wrapped onto its own unreleased batch. */
  ghost predicate Stuck(s: State) {
    s.consumer.Spinning? && s.consumer.count >= |s.slots|
  }

  lemma StuckStep(s: State, step: Step)
    requires Inv(s) && Stuck(s) && Enabled(s, step)
    ensures Apply(s, step).consumer == s.consumer && Apply(s, step).published == s.published
  {
    if step.PollSlot? {
      assert s.slots[Index(s, s.consumer.base + s.consumer.count)].sequence <= |s.published|;
    }
  }

  /** Once stuck, stuck under every continuation, and nothing is ever published again. */
  lemma {:induction false} StuckForever(s: State, steps: seq<Step>, t: State)
    requires Inv(s) && Stuck(s) && Run(s, steps) == Some(t)
    ensures t.consumer == s.consumer && t.published == s.published
    decreases |steps|
  {
    if steps != [] {
      StepKeepsInv(s, steps[0]);
      StuckStep(s, steps[0]);
      StuckForever(Apply(s, steps[0]), steps[1..], t);
    }
  }

  function NextProducerStep(s: State, next: Event): Step {
    match s.producer
    case Idle => Publish(next)
    case Reserved(_, _) => CheckFull
    case Refused(_) => RollBack
    case Writing(_, _) => WriteSlot
    case Written(_, _) => MarkReady
    case Counting(_) => CountPublished
  }

  function StepsToPublish(s: State): nat {
    match s.producer
    case Written(_, _) => 1
    case Writing(_, _) => 2
    case Reserved(_, _) => 3
    case Idle => 4
    case _ => 5
  }

  /** While the batch fits the ring, the producer alone can supply the awaited event. */
  lemma {:induction false} SpinCanEnd(s: State, next: Event) returns (steps: seq<Step>)
    requires Inv(s) && s.consumer.Spinning? && !Stuck(s)
    ensures Run(s, steps).Some? && Run(s, steps).value.consumer.Ready?
    decreases if s.consumer.base + s.consumer.count < |s.published| then 0 else StepsToPublish(s)
  {
    var Spinning(base, count, batch) := s.consumer;
    if base + count < |s.published| {
      assert s.slots[Index(s, base + count)].sequence == base + count + 1;
      steps := [PollSlot];
      assert Run(Apply(s, PollSlot), []) == Some(Apply(s, PollSlot));
    } else {
      var step := NextProducerStep(s, next);
      StepKeepsInv(s, step);
      if s.producer.Reserved? {
        FullCheckExact(s);
      }
      var rest := SpinCanEnd(Apply(s, step), next);
      steps := [step] + rest;
      RunCons(s, step, rest);
    }
  }

  /** The consumer's wait can end exactly when it holds fewer than `n` unreleased events. */
  lemma SpinEndsIff(s: State)
    requires Inv(s) && s.consumer.Spinning?
    ensures (exists steps: seq<Step> :: Run(s, steps).Some? && Run(s, steps).value.consumer.Ready?)
      <==> s.consumer.count < |s.slots|
  {
    if Stuck(s) {
      forall steps: seq<Step> | Run(s, steps).Some?
        ensures !Run(s, steps).value.consumer.Ready?
      {
        StuckForever(s, steps, Run(s, steps).value);
      }
    } else {
      var steps := SpinCanEnd(s, EMPTY_EVENT);
      assert Run(s, steps).Some?;
    }
  }

  /** Every batch asked for in the schedule fits the ring. */
  ghost predicate BatchesFit(steps: seq<Step>, n: nat) {
    forall i :: 0 <= i < |steps| && steps[i].BeginConsume? ==> steps[i].single || steps[i].maxCount <= n
  }

  ghost predicate PendingBatchFits(s: State) {
    match s.consumer
    case Loaded(single, maxCount, _) => single || maxCount <= |s.slots|
    case Spinning(_, _, batch) => batch <= |s.slots|
    case Ready(_, _, batch) => batch <= |s.slots|
    case _ => true
  }

  lemma FittingStep(s: State, step: Step)
    requires Inv(s) && PendingBatchFits(s) && Enabled(s, step)
    requires step.BeginConsume? ==> step.single || step.maxCount <= |s.slots|
    ensures PendingBatchFits(Apply(s, step))
  {
  }

  lemma RestFits(steps: seq<Step>, n: nat)
    requires steps != [] && BatchesFit(steps, n)
    ensures BatchesFit(steps[1..], n)
  {
    assert forall i :: 0 <= i < |steps[1..]| ==> steps[1..][i] == steps[i + 1];
  }

  /** A consumer that never asks for more than `n` events at once never gets stuck. */
  lemma {:induction false} FittingBatchesNeverStick(s: State, steps: seq<Step>, t: State)
    requires Inv(s) && PendingBatchFits(s) && BatchesFit(steps, |s.slots|) && Run(s, steps) == Some(t)
    ensures PendingBatchFits(t) && !Stuck(t)
    decreases |steps|
  {
    if steps == [] {
      assert s.consumer.Spinning? ==> s.consumer.count < s.consumer.batch;
    } else {
      RestFits(steps, |s.slots|);
      StepKeepsInv(s, steps[0]);
      FittingStep(s, steps[0]);
      FittingBatchesNeverStick(Apply(s, steps[0]), steps[1..], t);
    }
  }

  /** With the consumer away, publishing `k` more events fills the ring to `k` more. */
  lemma {:induction false} PublishMany(s: State, k: nat) returns (steps: seq<Step>, t: State)
    requires Inv(s) && s.producer.Idle? && s.consumer.Waiting?
    requires |s.published| + k <= s.consumerSeq + |s.slots|
    ensures Run(s, steps) == Some(t) && Inv(t) && |t.slots| == |s.slots|
    ensures t.producer.Idle? && t.consumer.Waiting?
    ensures t.consumerSeq == s.consumerSeq && |t.published| == |s.published| + k
    ensures BatchesFit(steps, 0)
    decreases k
  {
    if k == 0 {
      steps, t := [], s;
    } else {
      var first := [Publish(EMPTY_EVENT), CheckFull, WriteSlot, MarkReady, CountPublished];
      var u := PublishOne(s, EMPTY_EVENT);
      var rest;
      rest, t := PublishMany(u, k - 1);
      RunAppend(s, first, rest);
      steps := first + rest;
    }
  }

  /** With room in the ring, the full check lets a reservation through. */
  lemma ReserveOne(s: State, e: Event) returns (b: State)
    requires Inv(s) && s.producer.Idle? && |s.published| < s.consumerSeq + |s.slots|
    ensures b == Apply(Apply(s, Publish(e)), CheckFull) && Inv(b)
    ensures b.producer == Writing(e, |s.published|)
    ensures b == s.(producer := b.producer, producerSeq := b.producerSeq)
  {
    var a := Apply(s, Publish(e));
    StepKeepsInv(s, Publish(e));
    FullCheckExact(a);
    b := Apply(a, CheckFull);
    StepKeepsInv(a, CheckFull);
  }

  lemma FinishPublish(b: State) returns (t: State)
    requires Inv(b) && b.producer.Writing?
    ensures Run(b, [WriteSlot, MarkReady, CountPublished]) == Some(t) && Inv(t)
    ensures t.producer.Idle? && t.consumer == b.consumer && t.consumerSeq == b.consumerSeq
    ensures |t.slots| == |b.slots| && t.published == b.published + [b.producer.event]
  {
    var c := Apply(b, WriteSlot);
    StepKeepsInv(b, WriteSlot);
    var d := Apply(c, MarkReady);
    StepKeepsInv(c, MarkReady);
    t := Apply(d, CountPublished);
    StepKeepsInv(d, CountPublished);
    RunCons(d, CountPublished, []);
    RunCons(c, MarkReady, [CountPublished]);
    RunCons(b, WriteSlot, [MarkReady, CountPublished]);
  }

  /** A `publish` that runs without interruption appends one event to the queue. */
  lemma PublishOne(s: State, e: Event) returns (t: State)
    requires Inv(s) && s.producer.Idle? && |s.published| < s.consumerSeq + |s.slots|
    ensures Run(s, [Publish(e), CheckFull, WriteSlot, MarkReady, CountPublished]) == Some(t) && Inv(t)
    ensures t.producer.Idle? && t.consumer == s.consumer && t.consumerSeq == s.consumerSeq
    ensures |t.slots| == |s.slots| && t.published == s.published + [e]
  {
    var b := ReserveOne(s, e);
    var a := Apply(s, Publish(e));
    t := FinishPublish(b);
    RunCons(a, CheckFull, [WriteSlot, MarkReady, CountPublished]);
    RunCons(s, Publish(e), [CheckFull, WriteSlot, MarkReady, CountPublished]);
  }

  lemma ReadOne(s: State) returns (a: State, b: State)
    requires Inv(s) && s.consumer.Spinning? && s.consumer.count + 1 < s.consumer.batch
    requires s.consumer.base + s.consumer.count + 1 <= |s.published|
    ensures a == Apply(s, PollSlot) && a.consumer.Ready? && |a.slots| == |s.slots|
    ensures b == Apply(a, ReadSlot) && Inv(b) && |b.slots| == |s.slots| && b.published == s.published
    ensures b.consumer == Spinning(s.consumer.base, s.consumer.count + 1, s.consumer.batch)
  {
    assert s.slots[Index(s, s.consumer.base + s.consumer.count)].sequence == s.consumer.base + s.consumer.count + 1;
    a := Apply(s, PollSlot);
    PollKeepsInv(s);
    b := Apply(a, ReadSlot);
    ReadKeepsInv(a);
  }

  /** Draining as many published events as the pending batch allows. */
  lemma {:induction false} ReadMany(s: State, k: nat) returns (steps: seq<Step>, t: State)
    requires Inv(s) && s.consumer.Spinning? && s.consumer.count + k < s.consumer.batch
    requires s.consumer.base + s.consumer.count + k <= |s.published|
    ensures Run(s, steps) == Some(t) && Inv(t) && |t.slots| == |s.slots|
    ensures t.consumer == Spinning(s.consumer.base, s.consumer.count + k, s.consumer.batch)
    ensures BatchesFit(steps, 0)
    decreases k
  {
    if k == 0 {
      steps, t := [], s;
    } else {
      var a, b := ReadOne(s);
      var rest;
      rest, t := ReadMany(b, k - 1);
      RunCons(a, ReadSlot, rest);
      RunCons(s, PollSlot, [ReadSlot] + rest);
      steps := [PollSlot] + ([ReadSlot] + rest);
    }
  }

  /** On a full ring, a refused `publish` overlaps a batch consumer that reads its reservation. */
  lemma Overlap(s: State, maxCount: nat) returns (d: State)
    requires Inv(s) && s.producer.Idle? && s.consumer.Waiting? && |s.slots| < maxCount
    requires |s.published| == s.consumerSeq + |s.slots|
    ensures Run(s, [Publish(EMPTY_EVENT), CheckFull, BeginConsume(false, maxCount), LoadProducer]) == Some(d) && Inv(d)
    ensures |d.slots| == |s.slots| && d.published == s.published
    ensures d.consumer == Spinning(s.consumerSeq, 0, |s.slots| + 1)
  {
    var begin := BeginConsume(false, maxCount);
    var a := Apply(s, Publish(EMPTY_EVENT));
    StepKeepsInv(s, Publish(EMPTY_EVENT));
    FullCheckExact(a);
    var b := Apply(a, CheckFull);
    StepKeepsInv(a, CheckFull);
    var c := Apply(b, begin);
    StepKeepsInv(b, begin);
    d := Apply(c, LoadProducer);
    StepKeepsInv(c, LoadProducer);
    WrapSubReading(c.producerSeq, c.consumerSeq, |s.slots| + 1);
    RunCons(c, LoadProducer, []);
    RunCons(b, begin, [LoadProducer]);
    RunCons(a, CheckFull, [begin, LoadProducer]);
    RunCons(s, Publish(EMPTY_EVENT), [CheckFull, begin, LoadProducer]);
  }

  /**
   On a full ring a refused `publish` is counted while it rolls back, so a batch limit
   above `n` makes the consumer wait for an event that cannot be published until the
   consumer itself releases its batch.
   */
  lemma OversizedBatchCanStick(n: nat, maxCount: nat) returns (steps: seq<Step>, t: State)
    requires 0 < n < U64 - 1 && n < maxCount
    ensures Run(Init(n), steps) == Some(t) && Stuck(t) && BatchesFit(steps, maxCount)
  {
    InitInv(n);
    var fill, s := PublishMany(Init(n), n);
    var d := Overlap(s, maxCount);
    var overlap := [Publish(EMPTY_EVENT), CheckFull, BeginConsume(false, maxCount), LoadProducer];
    var drain;
    drain, t := ReadMany(d, n);
    RunAppend(s, overlap, drain);
    RunAppend(Init(n), fill, overlap + drain);
    steps := fill + (overlap + drain);
  }

  /** A ring of `n` slots can deadlock exactly when batches above `n` may be asked for. */
  lemma DeadlockIff(n: nat, maxCount: nat)
    requires 0 < n < U64 - 1
    ensures (exists steps: seq<Step> ::
               BatchesFit(steps, maxCount) && Run(Init(n), steps).Some? && Stuck(Run(Init(n), steps).value))
      <==> n < maxCount
  {
    if n < maxCount {
      var steps, t := OversizedBatchCanStick(n, maxCount);
      assert BatchesFit(steps, maxCount) && Run(Init(n), steps).Some?;
    } else {
      InitInv(n);
      forall steps: seq<Step> | BatchesFit(steps, maxCount) && Run(Init(n), steps).Some?
        ensures !Stuck(Run(Init(n), steps).value)
      {
        FittingBatchesNeverStick(Init(n), steps, Run(Init(n), steps).value);
      }
    }
  }

  // ---------------------------------------------------------------- depth

  lemma StepGrows(s: State, step: Step)
    requires 0 < |s.slots| && Enabled(s, step)
    ensures var t := Apply(s, step);
      s.consumerSeq <= t.consumerSeq && s.published <= t.published && |t.slots| == |s.slots|
  {
  }

  /** Neither the released count nor the log of published events ever shrinks. */
  lemma {:induction false} RunGrows(s: State, steps: seq<Step>, t: State)
    requires 0 < |s.slots| && Run(s, steps) == Some(t)
    ensures s.consumerSeq <= t.consumerSeq && s.published <= t.published
    decreases |steps|
  {
    if steps != [] {
      StepGrows(s, steps[0]);
      RunGrows(Apply(s, steps[0]), steps[1..], t);
    }
  }

  /**
   `depth` loads the producer counter in state `s` and the consumer counter in a later
   state `t`. The reading is a possible depth exactly when the consumer has not overtaken
   the stale producer value in between; otherwise the subtraction wraps.
   */
  lemma DepthReading(s: State, steps: seq<Step>, t: State)
    requires Inv(s) && Run(s, steps) == Some(t)
    requires t.consumerSeq - s.producerSeq < U64 - |s.slots| - 1
    ensures WrapSub(s.producerSeq, t.consumerSeq) <= |s.slots| + 1 <==> t.consumerSeq <= s.producerSeq
    ensures steps == [] && s.producer.Idle? && s.consumer.Waiting?
      ==> WrapSub(s.producerSeq, t.consumerSeq) == |Queue(s)|
  {
    RunGrows(s, steps, t);
    WrapSubReading(s.producerSeq, t.consumerSeq, |s.slots| + 1);
  }
}
