/** Duplicate checks that overlap each other, one atomic operation per step. */
module IdempotencyRace {
  import opened Machine
  import opened Probing
  import opened IdempotencyKey

  // Any number of threads are inside `check_and_mark_used`. The strategy and timestamp stores,
  // which no check reads, are left out.

  /** A position in the 16-slot window. */
  type probe = i: nat | i < PROBE_LIMIT

  /** What a call does next. */
  datatype Phase =
    | ReadKey(i: probe)
    | ReadUsed(i: probe, stored: nat)
    | Swap(i: probe)
    | Mark(i: probe)
    | Done(duplicate: bool)

  datatype Thread =
    | Resting
    | Calling(key: OrderKey, call: nat, phase: Phase)

  /** Who claimed a slot: the thread and the number of its call. */
  datatype Claim = Claim(thread: nat, call: nat)

  datatype State = State(
    cells: seq<KeyEntry>,
    threads: seq<Thread>,
    presented: seq<OrderKey>,   // history: the key of every call, by call number
    claims: seq<Claim>)         // history: the claim of every occupied slot

  /** A thread starts a call, or performs the next atomic operation of its call. */
  datatype Step = Begin(thread: nat, key: OrderKey) | Next(thread: nat)

  function Init(size: nat, threadCount: nat): State {
    State(seq(size, _ => EMPTY_SLOT), seq(threadCount, _ => Resting), [], seq(size, _ => Claim(0, 0)))
  }

  predicate Shaped(s: State) {
    PROBE_LIMIT <= |s.cells| == |s.claims|
  }

  predicate Enabled(s: State, step: Step) {
    && step.thread < |s.threads|
    && var call := s.threads[step.thread];
       if step.Begin? then call.Resting? || call.phase.Done? else call.Calling?
  }

  /** On to the next slot; a call that has seen the whole window answers "first use". */
  function Onward(i: probe): Phase {
    if i + 1 < PROBE_LIMIT then ReadKey(i + 1) else Done(false)
  }

  /** The branch on the two values read. */
  function Decide(key: OrderKey, i: probe, stored: nat, used: nat): Phase {
    if stored == 0 then Swap(i)
    else if stored != key.low then Onward(i)
    else if used != 0 then Done(true)
    else Mark(i)
  }

  /** The slot that probe `i` of a call with this key looks at. */
  function SlotOf(key: OrderKey, i: probe, size: nat): (c: nat)
    requires PROBE_LIMIT <= size
    ensures c < size
  {
    At(Home(key, size), i, size)
  }

  function Apply(s: State, step: Step): (t: State)
    requires Shaped(s) && Enabled(s, step)
    ensures Shaped(t) && |t.cells| == |s.cells| && |t.threads| == |s.threads|
  {
    var th := step.thread;
    match step
    case Begin(_, key) =>
      s.(threads := s.threads[th := Calling(key, |s.presented|, ReadKey(0))], presented := s.presented + [key])
    case Next(_) =>
      var Calling(key, call, phase) := s.threads[th];
      match phase
      case ReadKey(i) =>
        s.(threads := s.threads[th := Calling(key, call, ReadUsed(i, s.cells[SlotOf(key, i, |s.cells|)].key))])
      case ReadUsed(i, stored) =>
        s.(threads := s.threads[th := Calling(key, call, Decide(key, i, stored, s.cells[SlotOf(key, i, |s.cells|)].used))])
      case Swap(i) =>
        var c := SlotOf(key, i, |s.cells|);
        if s.cells[c].key != 0 then s.(threads := s.threads[th := Calling(key, call, Onward(i))])
        else s.(cells := s.cells[c := s.cells[c].(key := key.low)],
                threads := s.threads[th := Calling(key, call, Mark(i))],
                claims := if key.low == 0 then s.claims else s.claims[c := Claim(th, call)])
      case Mark(i) =>
        var c := SlotOf(key, i, |s.cells|);
        s.(cells := s.cells[c := s.cells[c].(used := 1)], threads := s.threads[th := Calling(key, call, Done(false))])
      case Done(_) => s
  }

  function Run(s: State, steps: seq<Step>): Option<State>
    requires Shaped(s)
    decreases |steps|
  {
    if steps == [] then Some(s)
    else if !Enabled(s, steps[0]) then None
    else Run(Apply(s, steps[0]), steps[1..])
  }

  // ---------------------------------------------------------------- what a step changes

  /** Stored words and used marks are never taken back. */
  ghost predicate Grows(t: seq<KeyEntry>, u: seq<KeyEntry>) {
    Keeps(t, u) && forall j :: 0 <= j < |t| && t[j].used != 0 ==> u[j].used != 0
  }

  lemma StepGrows(s: State, step: Step)
    requires Shaped(s) && Enabled(s, step)
    ensures Grows(s.cells, Apply(s, step).cells)
  {
  }

  // ---------------------------------------------------------------- every call's window

  /** How the scan of a key's window ends. */
  function Verdict(t: seq<KeyEntry>, key: OrderKey): Outcome
    requires PROBE_LIMIT <= |t|
  {
    Scan(t, Home(key, |t|), key.low, 0)
  }

  /** The first `i` slots of the window are occupied. */
  ghost predicate Passed(t: seq<KeyEntry>, key: OrderKey, i: nat)
    requires PROBE_LIMIT <= |t| && i <= PROBE_LIMIT
  {
    forall j: probe :: j < i ==> t[SlotOf(key, j, |t|)].key != 0
  }

  /** A call has only occupied slots behind it, and a finished one left no gap before its word. */
  ghost predicate CallInv(t: seq<KeyEntry>, call: Thread)
    requires PROBE_LIMIT <= |t|
  {
    call.Calling? && call.key.low != 0 ==>
      match call.phase
      case ReadKey(i) => Passed(t, call.key, i)
      case ReadUsed(i, stored) =>
        Passed(t, call.key, i) && (stored != 0 ==> t[SlotOf(call.key, i, |t|)].key == stored)
      case Swap(i) => Passed(t, call.key, i)
      case Mark(i) => Passed(t, call.key, i) && t[SlotOf(call.key, i, |t|)].key == call.key.low
      case Done(_) => !Scan(t, Home(call.key, |t|), call.key.low, 0).Free?
  }

  lemma CallInvStable(t: seq<KeyEntry>, u: seq<KeyEntry>, call: Thread)
    requires PROBE_LIMIT <= |t| && Grows(t, u) && CallInv(t, call)
    ensures CallInv(u, call)
  {
    if call.Calling? && call.phase.Done? && call.key.low != 0 {
      ScanStable(t, u, Home(call.key, |t|), call.key.low, 0);
    }
  }

  /** With its first `i` slots occupied, a window's scan ends among them or goes on from `i`. */
  lemma {:induction false} ScanPassed(t: seq<KeyEntry>, key: OrderKey, from: nat, i: nat)
    requires PROBE_LIMIT <= |t| && from <= i <= PROBE_LIMIT && Passed(t, key, i)
    ensures var home := Home(key, |t|);
      Scan(t, home, key.low, from).Found? || Scan(t, home, key.low, from) == Scan(t, home, key.low, i)
    decreases i - from
  {
    if from < i {
      var j: probe := from;
      assert t[SlotOf(key, j, |t|)].key != 0;
      ScanPassed(t, key, from + 1, i);
    }
  }

  lemma PassedOn(t: seq<KeyEntry>, key: OrderKey, i: probe)
    requires PROBE_LIMIT <= |t| && key.low != 0 && Passed(t, key, i) && t[SlotOf(key, i, |t|)].key != 0
    ensures Passed(t, key, i + 1)
    ensures CallInv(t, Calling(key, 0, Onward(i)))
  {
    ScanPassed(t, key, 0, i + 1);
  }

  lemma FoundBehind(t: seq<KeyEntry>, key: OrderKey, i: probe)
    requires PROBE_LIMIT <= |t| && key.low != 0 && Passed(t, key, i) && t[SlotOf(key, i, |t|)].key == key.low
    ensures Scan(t, Home(key, |t|), key.low, 0).Found?
  {
    ScanPassed(t, key, 0, i);
  }

  lemma ActorKeepsCallInv(s: State, step: Step)
    requires Shaped(s) && Enabled(s, step) && CallInv(s.cells, s.threads[step.thread])
    ensures CallInv(Apply(s, step).cells, Apply(s, step).threads[step.thread])
  {
    var t := Apply(s, step);
    StepGrows(s, step);
    CallInvStable(s.cells, t.cells, s.threads[step.thread]);
    if !step.Begin? {
      var Calling(key, call, phase) := s.threads[step.thread];
      if key.low != 0 && !phase.Done? && t.cells[SlotOf(key, phase.i, |t.cells|)].key != 0 {
        PassedOn(t.cells, key, phase.i);
        if t.cells[SlotOf(key, phase.i, |t.cells|)].key == key.low {
          FoundBehind(t.cells, key, phase.i);
        }
      }
    }
  }

  // ---------------------------------------------------------------- unmarked slots

  /** Thread `th` has claimed slot `c` and is about to mark it. */
  predicate Marking(s: State, th: nat, c: nat)
    requires Shaped(s) && c < |s.cells|
  {
    && th < |s.threads| && s.threads[th].Calling? && s.threads[th].phase.Mark?
    && SlotOf(s.threads[th].key, s.threads[th].phase.i, |s.cells|) == c
    && s.threads[th].key.low == s.cells[c].key
  }

  /** A word that is stored but not yet marked used has its claimer still on the way. */
  ghost predicate UnmarkedInFlight(s: State)
    requires Shaped(s)
  {
    forall c :: 0 <= c < |s.cells| && s.cells[c].key != 0 && s.cells[c].used == 0 ==> Marking(s, s.claims[c].thread, c)
  }

  lemma StepKeepsUnmarked(s: State, step: Step)
    requires Shaped(s) && Enabled(s, step) && UnmarkedInFlight(s)
    ensures UnmarkedInFlight(Apply(s, step))
  {
    var t := Apply(s, step);
    forall c | 0 <= c < |t.cells| && t.cells[c].key != 0 && t.cells[c].used == 0
      ensures Marking(t, t.claims[c].thread, c)
    {
      assert s.cells[c].key != 0 ==> Marking(s, s.claims[c].thread, c);
    }
  }

  // ---------------------------------------------------------------- where words come from

  /** Before it claims a slot, a call owns none. */
  predicate Searching(call: Thread) {
    call.Calling? && (call.phase.ReadKey? || call.phase.ReadUsed? || call.phase.Swap?)
  }

  /** Some other call presented the same low word. */
  ghost predicate PresentedByAnother(presented: seq<OrderKey>, call: Thread)
    requires call.Calling?
  {
    exists k :: 0 <= k < |presented| && k != call.call && presented[k].low == call.key.low
  }

  ghost predicate CallsNumbered(s: State) {
    && (forall i :: 0 <= i < |s.threads| && s.threads[i].Calling? ==>
          s.threads[i].call < |s.presented| && s.presented[s.threads[i].call] == s.threads[i].key)
    && (forall i, j :: 0 <= i < j < |s.threads| && s.threads[i].Calling? && s.threads[j].Calling? ==>
          s.threads[i].call != s.threads[j].call)
  }

  ghost predicate WordsClaimed(s: State)
    requires Shaped(s)
  {
    WordsPresented(s) && SearchersClaimNothing(s)
  }

  ghost predicate WordsPresented(s: State)
    requires Shaped(s)
  {
    forall c :: 0 <= c < |s.cells| && s.cells[c].key != 0 ==>
      s.claims[c].call < |s.presented| && s.presented[s.claims[c].call].low == s.cells[c].key
  }

  ghost predicate SearchersClaimNothing(s: State)
    requires Shaped(s)
  {
    (forall i, c :: 0 <= i < |s.threads| && 0 <= c < |s.cells| && Searching(s.threads[i]) && s.cells[c].key != 0 ==>
          s.claims[c].call != s.threads[i].call)
  }

  ghost predicate DuplicatesExplained(s: State) {
    forall i :: 0 <= i < |s.threads| && s.threads[i].Calling? && s.threads[i].phase == Done(true) ==>
      PresentedByAnother(s.presented, s.threads[i])
  }

  ghost predicate CallsInv(s: State)
    requires Shaped(s)
  {
    forall i :: 0 <= i < |s.threads| ==> CallInv(s.cells, s.threads[i])
  }

  /** Every read word is 0 or still stored, whatever the key. */
  ghost predicate ReadsCurrent(s: State)
    requires Shaped(s)
  {
    forall i :: 0 <= i < |s.threads| && s.threads[i].Calling? && s.threads[i].phase.ReadUsed? && s.threads[i].phase.stored != 0 ==>
      s.cells[SlotOf(s.threads[i].key, s.threads[i].phase.i, |s.cells|)].key == s.threads[i].phase.stored
  }

  /** Call number `k` has begun and not returned. */
  ghost predicate UnderWay(s: State, k: nat) {
    exists i :: 0 <= i < |s.threads| && s.threads[i].Calling? && s.threads[i].call == k && !s.threads[i].phase.Done?
  }

  /** Every call that has returned, also on a thread that went on to other keys, left its window without a gap. */
  ghost predicate ReturnedSeen(s: State)
    requires Shaped(s)
  {
    forall k :: 0 <= k < |s.presented| && s.presented[k].low != 0 && !UnderWay(s, k) ==>
      !Verdict(s.cells, s.presented[k]).Free?
  }

  ghost predicate Inv(s: State) {
    && Shaped(s) && CallsInv(s) && UnmarkedInFlight(s) && ReturnedSeen(s)
    && CallsNumbered(s) && WordsClaimed(s) && ReadsCurrent(s) && DuplicatesExplained(s)
  }

  lemma StepKeepsCalls(s: State, step: Step)
    requires Shaped(s) && Enabled(s, step) && CallsInv(s)
    ensures CallsInv(Apply(s, step))
  {
    var t := Apply(s, step);
    StepGrows(s, step);
    ActorKeepsCallInv(s, step);
    forall i | 0 <= i < |t.threads| ensures CallInv(t.cells, t.threads[i]) {
      if i != step.thread {
        CallInvStable(s.cells, t.cells, s.threads[i]);
      }
    }
  }

  lemma StepKeepsNumbers(s: State, step: Step)
    requires Shaped(s) && Enabled(s, step) && CallsNumbered(s)
    ensures CallsNumbered(Apply(s, step))
  {
  }

  lemma StepKeepsPresented(s: State, step: Step)
    requires Shaped(s) && Enabled(s, step) && CallsNumbered(s) && WordsPresented(s)
    ensures WordsPresented(Apply(s, step))
  {
  }

  lemma StepKeepsClaims(s: State, step: Step)
    requires Shaped(s) && Enabled(s, step) && CallsNumbered(s) && WordsClaimed(s)
    ensures WordsClaimed(Apply(s, step))
  {
    var t := Apply(s, step);
    StepKeepsPresented(s, step);
    forall i, c | 0 <= i < |t.threads| && 0 <= c < |t.cells| && Searching(t.threads[i]) && t.cells[c].key != 0
      ensures t.claims[c].call != t.threads[i].call
    {
      assert i != step.thread ==> t.threads[i] == s.threads[i];
    }
  }

  lemma StepKeepsReads(s: State, step: Step)
    requires Shaped(s) && Enabled(s, step) && ReadsCurrent(s)
    ensures ReadsCurrent(Apply(s, step))
  {
    StepGrows(s, step);
  }

  lemma StepExplains(s: State, step: Step)
    requires Shaped(s) && Enabled(s, step)
    requires CallsNumbered(s) && WordsClaimed(s) && ReadsCurrent(s) && DuplicatesExplained(s)
    ensures DuplicatesExplained(Apply(s, step))
  {
    var t := Apply(s, step);
    forall i | 0 <= i < |t.threads| && t.threads[i].Calling? && t.threads[i].phase == Done(true)
      ensures PresentedByAnother(t.presented, t.threads[i])
    {
      if s.threads[i] == t.threads[i] {
        var k :| 0 <= k < |s.presented| && k != s.threads[i].call && s.presented[k].low == s.threads[i].key.low;
        assert t.presented[k] == s.presented[k];
      } else {
        var Calling(key, call, phase) := s.threads[i];
        var c := SlotOf(key, phase.i, |s.cells|);
        assert s.cells[c].key == phase.stored == key.low;
        assert s.presented[s.claims[c].call].low == key.low;
      }
    }
  }

  lemma StepKeepsReturned(s: State, step: Step)
    requires Shaped(s) && Enabled(s, step) && CallsInv(s) && CallsNumbered(s) && ReturnedSeen(s)
    ensures ReturnedSeen(Apply(s, step))
  {
    var t := Apply(s, step);
    StepGrows(s, step);
    ActorKeepsCallInv(s, step);
    assert forall i :: 0 <= i < |s.threads| && i != step.thread ==> t.threads[i] == s.threads[i];
    forall k | 0 <= k < |t.presented| && t.presented[k].low != 0 && !UnderWay(t, k)
      ensures !Verdict(t.cells, t.presented[k]).Free?
    {
      assert step.Begin? ==> t.threads[step.thread].call == |s.presented|;
      if UnderWay(s, k) {
        var i :| 0 <= i < |s.threads| && s.threads[i].Calling? && s.threads[i].call == k && !s.threads[i].phase.Done?;
        assert CallInv(t.cells, t.threads[step.thread]);
      } else {
        ScanStable(s.cells, t.cells, Home(s.presented[k], |s.cells|), s.presented[k].low, 0);
      }
    }
  }

  lemma InitInv(size: nat, threadCount: nat)
    requires PROBE_LIMIT <= size
    ensures Inv(Init(size, threadCount))
  {
  }

  /** Every atomic step of any thread keeps the invariant. */
  lemma StepKeepsInv(s: State, step: Step)
    requires Inv(s) && Enabled(s, step)
    ensures Inv(Apply(s, step))
  {
    StepKeepsCalls(s, step);
    StepKeepsUnmarked(s, step);
    StepKeepsReturned(s, step);
    StepKeepsNumbers(s, step);
    StepKeepsClaims(s, step);
    StepKeepsReads(s, step);
    StepExplains(s, step);
  }

  lemma {:induction false} RunKeepsInv(s: State, steps: seq<Step>, t: State)
    requires Inv(s) && Run(s, steps) == Some(t)
    ensures Inv(t) && |t.threads| == |s.threads| && Grows(s.cells, t.cells)
    decreases |steps|
  {
    if steps != [] {
      StepKeepsInv(s, steps[0]);
      StepGrows(s, steps[0]);
      RunKeepsInv(Apply(s, steps[0]), steps[1..], t);
    }
  }

  // ---------------------------------------------------------------- main results

  /**
   In every interleaving a call answers "duplicate" only if some other call presented the
   same low word, and no stored word is ever lost or overwritten.
   */
  lemma DuplicateHasAnother(size: nat, threadCount: nat, first: seq<Step>, s: State, rest: seq<Step>, t: State, i: nat)
    requires PROBE_LIMIT <= size && Run(Init(size, threadCount), first) == Some(s) && Shaped(s) && Run(s, rest) == Some(t)
    requires i < |t.threads| && t.threads[i].Calling? && t.threads[i].phase == Done(true)
    ensures PresentedByAnother(t.presented, t.threads[i])
    ensures Grows(s.cells, t.cells)
  {
    InitInv(size, threadCount);
    RunKeepsInv(Init(size, threadCount), first, s);
    RunKeepsInv(s, rest, t);
  }

  /** In every interleaving each call that has returned, whatever its thread did next, leaves no gap before its word. */
  lemma ReturnedLeavesNoGap(size: nat, threadCount: nat, steps: seq<Step>, t: State, k: nat)
    requires PROBE_LIMIT <= size && Run(Init(size, threadCount), steps) == Some(t) && Shaped(t)
    requires k < |t.presented| && t.presented[k].low != 0 && !UnderWay(t, k)
    ensures !Verdict(t.cells, t.presented[k]).Free?
  {
    InitInv(size, threadCount);
    RunKeepsInv(Init(size, threadCount), steps, t);
  }

  /** No call for this low word is under way. */
  ghost predicate Quiet(s: State, low: nat) {
    forall i :: 0 <= i < |s.threads| && s.threads[i].Calling? && s.threads[i].key.low == low ==> s.threads[i].phase.Done?
  }

  /** The key's window is settled: its word is stored and marked, or there is no room for it. */
  ghost predicate Settled(t: seq<KeyEntry>, key: OrderKey)
    requires PROBE_LIMIT <= |t|
  {
    var r := Scan(t, Home(key, |t|), key.low, 0);
    !r.Free? && (r.Found? ==> t[SlotOf(key, r.i, |t|)].used != 0)
  }

  /** Once no call for its low word is under way, the window of every key presented so far is settled. */
  lemma QuietIsSettled(s: State, k: nat)
    requires Shaped(s) && UnmarkedInFlight(s) && ReturnedSeen(s) && k < |s.presented|
    requires s.presented[k].low != 0 && Quiet(s, s.presented[k].low)
    requires CallsNumbered(s)
    ensures Settled(s.cells, s.presented[k])
  {
    var key := s.presented[k];
    assert !UnderWay(s, k);
    ScanMatchesLow(s.cells, Home(key, |s.cells|), key.low, 0);
  }

  /** A settled window stays so, with the same answer. */
  lemma SettledStable(t: seq<KeyEntry>, u: seq<KeyEntry>, key: OrderKey)
    requires PROBE_LIMIT <= |t| && Grows(t, u) && Settled(t, key)
    ensures Settled(u, key) && Verdict(u, key) == Verdict(t, key)
  {
    ScanStable(t, u, Home(key, |t|), key.low, 0);
  }

  /** A call that started on a settled window is on its way to the window's answer. */
  ghost predicate Follows(t: seq<KeyEntry>, call: Thread)
    requires PROBE_LIMIT <= |t|
  {
    && call.Calling? && Settled(t, call.key)
    && var home := Home(call.key, |t|);
       var r := Scan(t, home, call.key.low, 0);
       match call.phase
       case ReadKey(i) => Scan(t, home, call.key.low, i) == r
       case ReadUsed(i, stored) => Scan(t, home, call.key.low, i) == r && stored == t[SlotOf(call.key, i, |t|)].key
       case Done(duplicate) => duplicate == r.Found?
       case _ => false
  }

  lemma FollowsStable(t: seq<KeyEntry>, u: seq<KeyEntry>, call: Thread)
    requires PROBE_LIMIT <= |t| && Grows(t, u) && Follows(t, call)
    ensures Follows(u, call)
  {
    var home := Home(call.key, |t|);
    ScanStable(t, u, home, call.key.low, 0);
    if !call.phase.Done? {
      ScanStable(t, u, home, call.key.low, call.phase.i);
    }
  }

  /** Where the decision leads on a settled window. */
  lemma DecideFollows(t: seq<KeyEntry>, key: OrderKey, call: nat, i: probe, stored: nat)
    requires PROBE_LIMIT <= |t| && Follows(t, Calling(key, call, ReadUsed(i, stored)))
    ensures Follows(t, Calling(key, call, Decide(key, i, stored, t[SlotOf(key, i, |t|)].used)))
  {
    var home := Home(key, |t|);
    if stored != key.low {
      assert Scan(t, home, key.low, i) == Scan(t, home, key.low, i + 1);
      assert i + 1 == PROBE_LIMIT ==> Scan(t, home, key.low, i + 1).Full?;
    }
  }

  lemma ActorFollows(s: State, step: Step)
    requires Shaped(s) && Enabled(s, step) && !step.Begin? && Follows(s.cells, s.threads[step.thread])
    ensures Follows(Apply(s, step).cells, Apply(s, step).threads[step.thread])
  {
    var Calling(key, call, phase) := s.threads[step.thread];
    if phase.ReadUsed? {
      DecideFollows(s.cells, key, call, phase.i, phase.stored);
    }
  }

  ghost predicate NoRestart(steps: seq<Step>, i: nat) {
    forall k :: 0 <= k < |steps| && steps[k].Begin? ==> steps[k].thread != i
  }

  /** Whatever step is taken, call `i` stays on its way to the same answer. */
  lemma StepFollows(s: State, step: Step, i: nat)
    requires Shaped(s) && i < |s.threads| && Follows(s.cells, s.threads[i])
    requires Enabled(s, step) && (step.Begin? ==> step.thread != i)
    ensures var t := Apply(s, step);
      && Follows(t.cells, t.threads[i]) && t.threads[i].key == s.threads[i].key
      && Verdict(t.cells, t.threads[i].key) == Verdict(s.cells, s.threads[i].key)
  {
    var t := Apply(s, step);
    StepGrows(s, step);
    ScanStable(s.cells, t.cells, Home(s.threads[i].key, |s.cells|), s.threads[i].key.low, 0);
    if step.thread == i {
      ActorFollows(s, step);
    } else {
      FollowsStable(s.cells, t.cells, s.threads[i]);
    }
  }

  lemma NoRestartTail(steps: seq<Step>, i: nat)
    requires NoRestart(steps, i) && steps != []
    ensures NoRestart(steps[1..], i) && (steps[0].Begin? ==> steps[0].thread != i)
  {
  }

  lemma {:induction false} RunFollows(s: State, steps: seq<Step>, t: State, i: nat)
    requires Shaped(s) && i < |s.threads| && Follows(s.cells, s.threads[i])
    requires NoRestart(steps, i) && Run(s, steps) == Some(t)
    ensures i < |t.threads| && Shaped(t) && Follows(t.cells, t.threads[i])
    ensures t.threads[i].key == s.threads[i].key
    ensures Verdict(t.cells, t.threads[i].key) == Verdict(s.cells, s.threads[i].key)
    decreases |steps|
  {
    if steps != [] {
      NoRestartTail(steps, i);
      StepFollows(s, steps[0], i);
      RunFollows(Apply(s, steps[0]), steps[1..], t, i);
    }
  }

  /**
   Let no call for a low word be under way at some moment `s` of any interleaving. From
   then on every check of any key with that low word presented so far, begun at any later
   moment `m` by any thread and whatever other threads do before and meanwhile, answers
   "duplicate" if and only if the key's window was not full of other words.
   */
  lemma LaterCheckIff(size: nat, threadCount: nat, first: seq<Step>, s: State, k: nat,
                      mid: seq<Step>, m: State, j: nat, rest: seq<Step>, t: State)
    requires PROBE_LIMIT <= size && Run(Init(size, threadCount), first) == Some(s) && Shaped(s)
    requires k < |s.presented| && s.presented[k].low != 0 && Quiet(s, s.presented[k].low)
    requires Run(s, mid) == Some(m) && Shaped(m) && Enabled(m, Begin(j, s.presented[k]))
    requires Run(Apply(m, Begin(j, s.presented[k])), rest) == Some(t) && NoRestart(rest, j)
    requires j < |t.threads| && t.threads[j].Calling? && t.threads[j].phase.Done?
    ensures t.threads[j].phase.duplicate <==> !Crowded(s.cells, s.presented[k])
  {
    var key := s.presented[k];
    InitInv(size, threadCount);
    RunKeepsInv(Init(size, threadCount), first, s);
    QuietIsSettled(s, k);
    RunKeepsInv(s, mid, m);
    SettledStable(s.cells, m.cells, key);
    RunFollows(Apply(m, Begin(j, key)), rest, t, j);
  }

  lemma RunCons(s: State, step: Step, rest: seq<Step>)
    requires Shaped(s) && Enabled(s, step)
    ensures Run(s, [step] + rest) == Run(Apply(s, step), rest)
  {
    assert ([step] + rest)[1..] == rest;
  }

  // ---------------------------------------------------------------- a call that nothing interrupts

  /** The call of thread `th` has ended as a scan with outcome `r` demands. */
  ghost predicate EndedAs(s: State, t: State, th: nat, r: Outcome)
    requires Shaped(s) && th < |s.threads| && s.threads[th].Calling? && (!r.Full? ==> r.i < PROBE_LIMIT)
  {
    var Calling(key, call, _) := s.threads[th];
    var at := At(Home(key, |s.cells|), if r.Full? then 0 else r.i, |s.cells|);
    && Shaped(t) && t.presented == s.presented && |t.threads| == |s.threads|
    && match r
       case Free(_) =>
         && t.threads == s.threads[th := Calling(key, call, Done(false))]
         && t.cells == s.cells[at := s.cells[at].(key := key.low, used := 1)]
       case Found(_) =>
         && t.threads == s.threads[th := Calling(key, call, Done(s.cells[at].used != 0))]
         && t.cells == if s.cells[at].used != 0 then s.cells else s.cells[at := s.cells[at].(used := 1)]
       case Full => t.threads == s.threads[th := Calling(key, call, Done(false))] && t.cells == s.cells
  }

  /** From the read of slot `i` on: the rest of the window is scanned as in the sequential check. */
  lemma {:induction false} ProbeAlone(s: State, th: nat, i: probe) returns (steps: seq<Step>, t: State)
    requires Shaped(s) && th < |s.threads| && s.threads[th].Calling? && s.threads[th].phase == ReadKey(i)
    ensures Run(s, steps) == Some(t) && forall step <- steps :: step == Next(th)
    ensures EndedAs(s, t, th, Scan(s.cells, Home(s.threads[th].key, |s.cells|), s.threads[th].key.low, i))
    decreases PROBE_LIMIT - i
  {
    var key := s.threads[th].key;
    var stored := s.cells[SlotOf(key, i, |s.cells|)].key;
    var a := Apply(s, Next(th));
    var b := Apply(a, Next(th));
    var rest;
    if stored == 0 {
      var c := Apply(b, Next(th));
      t := Apply(c, Next(th));
      RunCons(c, Next(th), []);
      RunCons(b, Next(th), [Next(th)]);
      rest := [Next(th), Next(th)];
    } else if stored == key.low {
      rest, t := MarkAlone(b, th);
    } else if i + 1 < PROBE_LIMIT {
      rest, t := ProbeAlone(b, th, i + 1);
    } else {
      rest, t := [], b;
    }
    RunCons(a, Next(th), rest);
    RunCons(s, Next(th), [Next(th)] + rest);
    steps := [Next(th)] + ([Next(th)] + rest);
  }

  /** A call that has found its word either is done or sets the mark. */
  lemma MarkAlone(b: State, th: nat) returns (rest: seq<Step>, t: State)
    requires Shaped(b) && th < |b.threads| && b.threads[th].Calling?
    requires b.threads[th].phase == Done(true) || b.threads[th].phase.Mark?
    ensures Run(b, rest) == Some(t) && forall step <- rest :: step == Next(th)
    ensures b.threads[th].phase.Done? ==> t == b
    ensures b.threads[th].phase.Mark? ==>
      t == Apply(b, Next(th))
  {
    if b.threads[th].phase.Done? {
      rest, t := [], b;
    } else {
      rest, t := [Next(th)], Apply(b, Next(th));
      RunCons(b, Next(th), []);
    }
  }

  ghost predicate SameMarks(t: seq<KeyEntry>, u: seq<KeyEntry>) {
    |t| == |u| && forall j :: 0 <= j < |t| ==> t[j].key == u[j].key && t[j].used == u[j].used
  }

  /** A call that nothing interrupts does what the sequential check does: same answer, same words, same marks. */
  lemma AloneIsCheck(s: State, th: nat, key: OrderKey, strategyId: nat, now: nat) returns (steps: seq<Step>, t: State)
    requires Shaped(s) && Enabled(s, Begin(th, key))
    ensures Run(s, [Begin(th, key)] + steps) == Some(t) && forall step <- steps :: step == Next(th)
    ensures var (cells, duplicate) := Check(s.cells, key, strategyId, now);
      && t.threads == s.threads[th := Calling(key, |s.presented|, Done(duplicate))]
      && SameMarks(t.cells, cells) && t.presented == s.presented + [key]
  {
    var a := Apply(s, Begin(th, key));
    steps, t := ProbeAlone(a, th, 0);
    RunCons(s, Begin(th, key), steps);
  }

  // ---------------------------------------------------------------- two calls that overlap

  /** Two threads have just begun to check the same key on an empty table. */
  function BothBegun(size: nat, key: OrderKey): (s: State)
    requires PROBE_LIMIT <= size
    ensures Shaped(s) && |s.cells| == size && s.cells == Init(size, 2).cells
    ensures s.threads == [Calling(key, 0, ReadKey(0)), Calling(key, 1, ReadKey(0))]
  {
    Apply(Apply(Init(size, 2), Begin(0, key)), Begin(1, key))
  }

  /** Thread 1 reads the claimed word between thread 0's claim and its mark. */
  lemma Overtake(size: nat, key: OrderKey) returns (t: State)
    requires PROBE_LIMIT <= size && key.low != 0
    ensures Run(BothBegun(size, key), [Next(0), Next(0), Next(0), Next(1), Next(1), Next(0), Next(1)]) == Some(t)
    ensures t.threads == [Calling(key, 0, Done(false)), Calling(key, 1, Done(false))]
  {
    var s := BothBegun(size, key);
    var a := Apply(s, Next(0));
    var b := Apply(a, Next(0));
    var c := Apply(b, Next(0));
    var d := Apply(c, Next(1));
    var e := Apply(d, Next(1));
    var f := Apply(e, Next(0));
    t := Apply(f, Next(1));
    RunCons(f, Next(1), []);
    RunCons(e, Next(0), [Next(1)]);
    RunCons(d, Next(1), [Next(0), Next(1)]);
    RunCons(c, Next(1), [Next(1), Next(0), Next(1)]);
    RunCons(b, Next(0), [Next(1), Next(1), Next(0), Next(1)]);
    RunCons(a, Next(0), [Next(0), Next(1), Next(1), Next(0), Next(1)]);
    RunCons(s, Next(0), [Next(0), Next(0), Next(1), Next(1), Next(0), Next(1)]);
  }

  /** Without that quiet moment the promise fails for every key: two overlapping checks can both answer "first use". */
  lemma OverlappingChecksCanBothPass(size: nat, key: OrderKey) returns (steps: seq<Step>, t: State)
    requires PROBE_LIMIT <= size && key.low != 0
    ensures Run(Init(size, 2), steps) == Some(t)
    ensures t.threads == [Calling(key, 0, Done(false)), Calling(key, 1, Done(false))]
  {
    var s := Init(size, 2);
    var a := Apply(s, Begin(0, key));
    var race := [Next(0), Next(0), Next(0), Next(1), Next(1), Next(0), Next(1)];
    t := Overtake(size, key);
    RunCons(a, Begin(1, key), race);
    RunCons(s, Begin(0, key), [Begin(1, key)] + race);
    steps := [Begin(0, key)] + ([Begin(1, key)] + race);
  }
}
