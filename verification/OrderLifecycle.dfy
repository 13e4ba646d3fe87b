/**
 One order: its state machine, the quantity bookkeeping of fills, and the rounded average
 price, as functions on the order's fields. Clock readings are parameters.
 */
module OrderLifecycle {
  import opened Machine

  datatype OrderState =
    | Pending | Submitted | Acknowledged | PartiallyFilled
    | Filled | Cancelled | SystemCancelled | Rejected | Expired

  function Code(s: OrderState): nat {
    match s
    case Pending => 0
    case Submitted => 1
    case Acknowledged => 2
    case PartiallyFilled => 3
    case Filled => 4
    case Cancelled => 5
    case SystemCancelled => 6
    case Rejected => 7
    case Expired => 8
  }

  predicate IsTerminal(s: OrderState) {
    s.Filled? || s.Cancelled? || s.SystemCancelled? || s.Rejected? || s.Expired?
  }

  predicate AllowsFills(s: OrderState) {
    s.Submitted? || s.Acknowledged? || s.PartiallyFilled?
  }

  /** The transition table as coded: numeric ranges on the state codes. */
  predicate IsValidTransition(from: nat, to: nat) {
    match from
    case 0 => to <= 2
    case 1 => to <= 7
    case 2 => to <= 7
    case 3 => to == 3 || to == 4 || to >= 5
    case _ => false
  }

  datatype OrderView = OrderView(
    clientId: nat, exchangeId: nat, quantity: nat, state: OrderState,
    filled: nat, avgPrice: nat, remaining: nat, fillCount: nat, errorCode: nat,
    submitTime: nat, lastUpdate: nat, expireTime: nat)

  function NewOrder(clientId: nat, quantity: nat, expireTime: nat): OrderView {
    OrderView(clientId, 0, quantity, Pending, 0, 0, quantity, 0, 0, 0, 0, expireTime)
  }

  function Transition(o: OrderView, to: OrderState, now: nat): (OrderView, bool) {
    if IsValidTransition(Code(o.state), Code(to)) then (o.(state := to, lastUpdate := now), true) else (o, false)
  }

  /** The new average: the old total is reconstructed from the rounded average. */
  function NewAverage(avg: nat, filled: nat, qty: nat, price: nat): nat {
    var newFilled := (filled + qty) % U64;
    if newFilled > 0 then ((avg * filled + price * qty) / newFilled) % U64 else 0
  }

  function Fill(o: OrderView, qty: nat, price: nat, now: nat): (OrderView, bool) {
    if !AllowsFills(o.state) then (o, false)
    else
      var newFilled := (o.filled + qty) % U64;
      var a := o.(filled := newFilled,
                  avgPrice := NewAverage(o.avgPrice, o.filled, qty, price),
                  remaining := if o.quantity >= newFilled then o.quantity - newFilled else 0,
                  fillCount := o.fillCount + 1);
      var b := if newFilled >= o.quantity then Transition(a, Filled, now).0
               else if o.state != PartiallyFilled then Transition(a, PartiallyFilled, now).0
               else a;
      (b.(lastUpdate := now), true)
  }

  datatype OrderEvent =
    | Submit | Ack(exchangeId: nat) | FillBy(qty: nat, price: nat) | Cancel | Reject(code: nat)

  function Process(o: OrderView, e: OrderEvent, now: nat): (OrderView, bool) {
    match e
    case Submit => Transition(o.(submitTime := now), Submitted, now)
    case Ack(id) => Transition(o.(exchangeId := id), Acknowledged, now)
    case FillBy(qty, price) => Fill(o, qty, price, now)
    case Cancel => if IsTerminal(o.state) then (o, false) else Transition(o, Cancelled, now)
    case Reject(code) => Transition(o.(errorCode := code), Rejected, now)
  }

  /** The timeout sweep counts an order when it is live, not terminal, and past its expiry. */
  predicate TimedOut(o: OrderView, now: nat) {
    o.clientId != 0 && !IsTerminal(o.state) && 0 < o.expireTime <= now
  }

  function Sweep(o: OrderView, now: nat): OrderView {
    if TimedOut(o, now) then Transition(o, SystemCancelled, now).0.(errorCode := 1) else o
  }

  /** Everything that can happen to an order: an event sent to it, or a timeout sweep. */
  datatype Happening = Event(e: OrderEvent, now: nat) | Timeout(now: nat)

  function After(o: OrderView, h: Happening): OrderView {
    match h
    case Event(e, now) => Process(o, e, now).0
    case Timeout(now) => Sweep(o, now)
  }

  function Run(o: OrderView, hs: seq<Happening>): OrderView {
    if hs == [] then o else After(Run(o, hs[..|hs| - 1]), hs[|hs| - 1])
  }

  // ---------------------------------------------------------------- the table, exactly

  /** Which events an order in each state accepts. */
  lemma AcceptedIff(o: OrderView, e: OrderEvent, now: nat)
    ensures Process(o, e, now).1 <==>
      match e
      case Submit => o.state in {Pending, Submitted, Acknowledged}
      case Ack(_) => o.state in {Pending, Submitted, Acknowledged}
      case FillBy(_, _) => o.state in {Submitted, Acknowledged, PartiallyFilled}
      case Cancel => o.state in {Submitted, Acknowledged, PartiallyFilled}
      case Reject(_) => o.state in {Submitted, Acknowledged, PartiallyFilled}
  {
  }

  /** The nine states are numbered 0 to 8 in this order. */
  lemma StatesInOrder()
    ensures 0 <= Code(Pending) < Code(Submitted) < Code(Acknowledged) < Code(PartiallyFilled)
    ensures Code(PartiallyFilled) < Code(Filled) < Code(Cancelled) < Code(SystemCancelled)
    ensures Code(SystemCancelled) < Code(Rejected) < Code(Expired) <= 8
  {
  }

  /** Which moves the table admits, by state. */
  lemma TransitionIff(from: OrderState, to: OrderState)
    ensures IsValidTransition(Code(from), Code(to)) <==>
      match from
      case Pending => to in {Pending, Submitted, Acknowledged}
      case Submitted => to != Expired
      case Acknowledged => to != Expired
      case PartiallyFilled => to !in {Pending, Submitted, Acknowledged}
      case _ => false
  {
  }

  /** A new order is pending, unfilled and unstamped, with all of its quantity to go. */
  lemma NewOrderIs(clientId: nat, quantity: nat, expireTime: nat)
    ensures var o := NewOrder(clientId, quantity, expireTime);
      && o.clientId == clientId && o.quantity == o.remaining == quantity && o.expireTime == expireTime
      && o.state == Pending && o.filled == o.avgPrice == o.fillCount == o.errorCode == 0
      && o.exchangeId == o.submitTime == o.lastUpdate == 0
    ensures quantity > 0 ==> Lifecycle(NewOrder(clientId, quantity, expireTime))
  {
  }

  /** The state an accepted event leads to. */
  lemma AcceptedStates(o: OrderView, e: OrderEvent, now: nat)
    requires Process(o, e, now).1
    ensures var p := Process(o, e, now).0;
      match e
      case Submit => p.state == Submitted
      case Ack(_) => p.state == Acknowledged
      case FillBy(qty, _) => p.state == if (o.filled + qty) % U64 >= o.quantity then Filled else PartiallyFilled
      case Cancel => p.state == Cancelled
      case Reject(_) => p.state == Rejected
  {
  }

  /**
   The remaining fields: an accepted event stamps `lastUpdate`, a refused one changes neither
   state nor fills; the submit time, exchange id and error code of a submission,
   acknowledgement or rejection are stored even when it is refused.
   */
  lemma StoredFields(o: OrderView, e: OrderEvent, now: nat)
    ensures var (p, ok) := Process(o, e, now);
      && p.lastUpdate == (if ok then now else o.lastUpdate)
      && (!ok ==> p.state == o.state)
      && (!ok || !e.FillBy? ==> SameFills(o, p))
      && p.submitTime == (if e.Submit? then now else o.submitTime)
      && p.exchangeId == (if e.Ack? then e.exchangeId else o.exchangeId)
      && p.errorCode == (if e.Reject? then e.code else o.errorCode)
      && p.clientId == o.clientId && p.quantity == o.quantity && p.expireTime == o.expireTime
  {
  }

  /** What an accepted fill stores while the counter does not overflow. */
  lemma FillFields(o: OrderView, qty: nat, price: nat, now: nat)
    requires AllowsFills(o.state) && o.filled + qty < U64
    ensures var p := Process(o, FillBy(qty, price), now).0;
      && p.filled == o.filled + qty && p.fillCount == o.fillCount + 1
      && p.remaining == Max(0, o.quantity - (o.filled + qty))
  {
    FitsWord(o.filled + qty);
  }

  /** A timed-out order is counted in any case, but cancelled exactly if it had been submitted. */
  lemma TimeoutCancelsIff(o: OrderView, now: nat)
    requires TimedOut(o, now)
    ensures Sweep(o, now).errorCode == 1
    ensures Sweep(o, now).state == SystemCancelled <==> o.state != Pending
  {
  }

  /**
   A sweep cancels an order in the market exactly if it is named, has a deadline, and the
   deadline has come; it then stamps the time and error 1 and keeps the fills.
   */
  lemma SweepIff(o: OrderView, now: nat)
    requires AllowsFills(o.state)
    ensures Sweep(o, now).state == SystemCancelled <==> o.clientId != 0 && o.expireTime != 0 && now >= o.expireTime
    ensures Sweep(o, now) == if Sweep(o, now).state == SystemCancelled
                             then o.(state := SystemCancelled, lastUpdate := now, errorCode := 1) else o
  {
  }

  /** A finished order, and an empty slot, is never swept; a pending one only gets the error code. */
  lemma SweepLeaves(o: OrderView, now: nat)
    requires !AllowsFills(o.state)
    ensures Sweep(o, now) == if o.state == Pending && o.clientId != 0 && o.expireTime != 0 && now >= o.expireTime
                             then o.(errorCode := 1) else o
  {
  }

  // ---------------------------------------------------------------- the lifecycle invariant

  ghost predicate Lifecycle(o: OrderView) {
    && o.quantity > 0
    && (o.state in {Pending, Submitted, Acknowledged} ==> o.filled == 0)
    && (o.state == PartiallyFilled ==> 0 < o.filled < o.quantity)
    && (o.state == Filled <==> o.filled >= o.quantity)
    && o.remaining == Max(0, o.quantity - o.filled)
    && o.state != Expired
  }

  /** An accepted fill fits the order's u64 counter. */
  predicate Counted(o: OrderView, h: Happening) {
    h.Event? && h.e.FillBy? && AllowsFills(o.state) ==> o.filled + h.e.qty < U64
  }

  ghost predicate CountedRun(o: OrderView, hs: seq<Happening>) {
    hs == [] || (CountedRun(o, hs[..|hs| - 1]) && Counted(Run(o, hs[..|hs| - 1]), hs[|hs| - 1]))
  }

  /** An accepted fill leaves a non-zero filled quantity in its u64 counter. */
  predicate Moves(o: OrderView, h: Happening) {
    h.Event? && h.e.FillBy? && AllowsFills(o.state) ==> (o.filled + h.e.qty) % U64 > 0
  }

  ghost predicate AllMove(o: OrderView, hs: seq<Happening>) {
    hs == [] || (AllMove(o, hs[..|hs| - 1]) && Moves(Run(o, hs[..|hs| - 1]), hs[|hs| - 1]))
  }

  lemma FillKeepsLifecycle(o: OrderView, qty: nat, price: nat, now: nat)
    requires Lifecycle(o) && (AllowsFills(o.state) ==> (o.filled + qty) % U64 > 0)
    ensures Lifecycle(Fill(o, qty, price, now).0)
  {
  }

  lemma StepKeepsLifecycle(o: OrderView, h: Happening)
    requires Lifecycle(o) && Moves(o, h)
    ensures Lifecycle(After(o, h))
    ensures After(o, h).quantity == o.quantity && After(o, h).clientId == o.clientId
    ensures IsTerminal(o.state) ==> SameFills(o, After(o, h)) && After(o, h).state == o.state
  {
    match h
    case Event(FillBy(qty, price), now) => FillKeepsLifecycle(o, qty, price, now);
    case _ =>
  }

  /** Whatever happens to a sound order, it stays sound if and only if an accepted fill moves its counter off 0. */
  lemma LifecycleKeptIff(o: OrderView, h: Happening)
    requires Lifecycle(o)
    ensures Lifecycle(After(o, h)) <==> Moves(o, h)
  {
    if Moves(o, h) {
      StepKeepsLifecycle(o, h);
    } else {
      assert After(o, h).filled == 0 && After(o, h).state == PartiallyFilled;
    }
  }

  predicate SameFills(o: OrderView, p: OrderView) {
    o.filled == p.filled && o.avgPrice == p.avgPrice && o.remaining == p.remaining && o.fillCount == p.fillCount
  }

  /** In every run of events and timeouts whose fills move, the state agrees with the quantities. */
  lemma {:induction false} RunKeepsLifecycle(o: OrderView, hs: seq<Happening>)
    requires Lifecycle(o) && AllMove(o, hs)
    ensures Lifecycle(Run(o, hs)) && Run(o, hs).quantity == o.quantity
  {
    if hs != [] {
      RunKeepsLifecycle(o, hs[..|hs| - 1]);
      StepKeepsLifecycle(Run(o, hs[..|hs| - 1]), hs[|hs| - 1]);
    }
  }

  ghost predicate LifecycleThroughout(o: OrderView, hs: seq<Happening>) {
    forall i: nat :: i <= |hs| ==> Lifecycle(Run(o, hs[..i]))
  }

  lemma ThroughoutShorter(o: OrderView, hs: seq<Happening>)
    requires hs != []
    ensures LifecycleThroughout(o, hs) <==>
      LifecycleThroughout(o, hs[..|hs| - 1]) && Lifecycle(Run(o, hs))
  {
    var shorter := hs[..|hs| - 1];
    assert forall i: nat :: i < |hs| ==> shorter[..i] == hs[..i];
    assert hs[..|hs|] == hs;
  }

  /** State and quantities agree at every moment of a run if and only if they do at the start and every accepted fill moves. */
  lemma {:induction false} RunLifecycleIff(o: OrderView, hs: seq<Happening>)
    ensures LifecycleThroughout(o, hs) <==> Lifecycle(o) && AllMove(o, hs)
  {
    if hs == [] {
      assert Run(o, hs[..0]) == o;
    } else {
      var shorter := hs[..|hs| - 1];
      RunLifecycleIff(o, shorter);
      ThroughoutShorter(o, hs);
      if LifecycleThroughout(o, shorter) {
        assert shorter[..|shorter|] == shorter;
        LifecycleKeptIff(Run(o, shorter), hs[|hs| - 1]);
      }
    }
  }

  predicate PositiveFill(h: Happening) {
    h.Event? && h.e.FillBy? ==> h.e.qty > 0
  }

  lemma PositiveFillMoves(o: OrderView, h: Happening)
    requires Counted(o, h) && PositiveFill(h)
    ensures Moves(o, h)
  {
    if h.Event? && h.e.FillBy? && AllowsFills(o.state) {
      FitsWord(o.filled + h.e.qty);
    }
  }

  /** Positive fills whose total fits the counter always move it. */
  lemma {:induction false} PositiveFillsMove(o: OrderView, hs: seq<Happening>)
    requires CountedRun(o, hs) && (forall h <- hs :: PositiveFill(h))
    ensures AllMove(o, hs)
  {
    if hs != [] {
      PositiveFillsMove(o, hs[..|hs| - 1]);
      PositiveFillMoves(Run(o, hs[..|hs| - 1]), hs[|hs| - 1]);
    }
  }

  /** A fill of 0 leaves a new order partly filled with nothing filled. */
  lemma ZeroFillBreaksLifecycle(clientId: nat, quantity: nat, expireTime: nat, price: nat, t: nat, u: nat)
    requires quantity > 0
    ensures var o := NewOrder(clientId, quantity, expireTime);
      var end := Run(o, [Event(Submit, t), Event(FillBy(0, price), u)]);
      Lifecycle(o) && end.state == PartiallyFilled && end.filled == 0 && !Lifecycle(end)
  {
    var o, hs := NewOrder(clientId, quantity, expireTime), [Event(Submit, t), Event(FillBy(0, price), u)];
    assert hs[..1] == [Event(Submit, t)];
    assert Run(o, hs[..1]).state == Submitted;
  }

  lemma TerminalStays(o: OrderView, h: Happening)
    requires IsTerminal(o.state)
    ensures After(o, h).state == o.state && SameFills(o, After(o, h))
  {
  }

  /** A terminal order never changes state or fill fields again, whatever its fields and whatever happens. */
  lemma {:induction false} TerminalIsFinal(o: OrderView, hs: seq<Happening>, i: nat)
    requires i <= |hs| && IsTerminal(Run(o, hs[..i]).state)
    ensures Run(o, hs).state == Run(o, hs[..i]).state && SameFills(Run(o, hs[..i]), Run(o, hs))
  {
    if i == |hs| {
      assert hs[..i] == hs;
    } else {
      var shorter := hs[..|hs| - 1];
      assert shorter[..i] == hs[..i];
      TerminalIsFinal(o, shorter, i);
      TerminalStays(Run(o, shorter), hs[|hs| - 1]);
    }
  }

  // ---------------------------------------------------------------- the rounded average

  datatype FillRecord = FillRecord(qty: nat, price: nat)

  function Quantity(fills: seq<FillRecord>): nat {
    if fills == [] then 0 else Quantity(fills[..|fills| - 1]) + fills[|fills| - 1].qty
  }

  function TotalValue(fills: seq<FillRecord>): nat {
    if fills == [] then 0
    else TotalValue(fills[..|fills| - 1]) + fills[|fills| - 1].price * fills[|fills| - 1].qty
  }

  /** The stored average after these fills. */
  function Average(fills: seq<FillRecord>): nat {
    if fills == [] then 0
    else
      var shorter, f := fills[..|fills| - 1], fills[|fills| - 1];
      NewAverage(Average(shorter), Quantity(shorter), f.qty, f.price)
  }

  /** The fills that a run accepted, in order. */
  function AcceptedFills(o: OrderView, hs: seq<Happening>): seq<FillRecord> {
    if hs == [] then []
    else
      var n := |hs| - 1;
      AcceptedFills(o, hs[..n]) + Accepted(Run(o, hs[..n]), hs[n])
  }

  function Accepted(o: OrderView, h: Happening): seq<FillRecord> {
    if h.Event? && h.e.FillBy? && AllowsFills(o.state) then [FillRecord(h.e.qty, h.e.price)] else []
  }

  /** The order's fill fields are those of these fills. */
  ghost predicate Matches(o: OrderView, fills: seq<FillRecord>) {
    && o.filled == Quantity(fills) && o.avgPrice == Average(fills) && o.fillCount == |fills|
    && Quantity(fills) < U64
  }

  lemma StepMatches(o: OrderView, h: Happening, fills: seq<FillRecord>)
    requires Matches(o, fills) && Counted(o, h)
    ensures Matches(After(o, h), fills + Accepted(o, h))
  {
    if Accepted(o, h) == [] {
      assert fills + Accepted(o, h) == fills;
      assert SameFills(o, After(o, h));
    } else {
      var f := FillRecord(h.e.qty, h.e.price);
      assert (fills + [f])[..|fills|] == fills;
      FitsWord(o.filled + f.qty);
    }
  }

  /** After any run that fits the counter the order's fill fields are those of its accepted fills. */
  lemma {:induction false} FillFieldsAreAccepted(o: OrderView, hs: seq<Happening>)
    requires o.filled == o.avgPrice == o.fillCount == 0 && CountedRun(o, hs)
    ensures Matches(Run(o, hs), AcceptedFills(o, hs))
  {
    if hs != [] {
      var n := |hs| - 1;
      FillFieldsAreAccepted(o, hs[..n]);
      StepMatches(Run(o, hs[..n]), hs[n], AcceptedFills(o, hs[..n]));
    }
  }

  ghost predicate PricesWithin(fills: seq<FillRecord>, low: nat, high: nat) {
    forall i :: 0 <= i < |fills| ==> low <= fills[i].price <= high
  }

  lemma WeightedSumWithin(low: nat, high: nat, avg: nat, filled: nat, price: nat, qty: nat)
    requires low <= price <= high && (filled > 0 ==> low <= avg <= high)
    ensures low * (filled + qty) <= avg * filled + price * qty <= high * (filled + qty)
  {
    if filled > 0 {
      MulMonotone(low, avg, filled);
      MulMonotone(avg, high, filled);
    }
    MulMonotone(low, price, qty);
    MulMonotone(price, high, qty);
    assert low * filled + low * qty == low * (filled + qty);
    assert high * filled + high * qty == high * (filled + qty);
  }

  lemma FitsWord(x: nat)
    requires x < U64
    ensures x % U64 == x
  {
    DivUnique(x, U64, 0, x);
  }

  /** With no counter overflowing, the new average is the plain quotient, between the prices. */
  lemma NewAverageExact(low: nat, high: nat, avg: nat, filled: nat, price: nat, qty: nat)
    requires 0 < filled + qty < U64 && low <= price <= high < U64 && (filled > 0 ==> low <= avg <= high)
    ensures NewAverage(avg, filled, qty, price) == (avg * filled + price * qty) / (filled + qty)
    ensures low <= NewAverage(avg, filled, qty, price) <= high
  {
    FitsWord(filled + qty);
    WeightedSumWithin(low, high, avg, filled, price, qty);
    QuotientWithin(avg * filled + price * qty, filled + qty, low, high);
    FitsWord((avg * filled + price * qty) / (filled + qty));
  }

  /** The stored average lies between the lowest and the highest fill price. */
  lemma {:induction false} AverageWithinPrices(fills: seq<FillRecord>, low: nat, high: nat)
    requires 0 < Quantity(fills) < U64 && PricesWithin(fills, low, high) && high < U64
    ensures low <= Average(fills) <= high
  {
    var shorter, f := fills[..|fills| - 1], fills[|fills| - 1];
    if Quantity(shorter) > 0 {
      AverageWithinPrices(shorter, low, high);
    }
    NewAverageExact(low, high, Average(shorter), Quantity(shorter), f.price, f.qty);
  }

  /** Value lost to rounding so far: what the fills were worth beyond average times quantity. */
  function RoundingLoss(fills: seq<FillRecord>): int {
    TotalValue(fills) - Average(fills) * Quantity(fills)
  }

  /** The value that the division of one fill drops. */
  function Dropped(avg: nat, filled: nat, qty: nat, price: nat): int {
    avg * filled + price * qty - NewAverage(avg, filled, qty, price) * (filled + qty)
  }

  /** Less than one unit per share is dropped, and nothing while nothing was filled before. */
  lemma DroppedByFill(low: nat, high: nat, avg: nat, filled: nat, price: nat, qty: nat)
    requires 0 < filled + qty < U64 && low <= price <= high < U64 && (filled > 0 ==> low <= avg <= high)
    ensures 0 <= Dropped(avg, filled, qty, price) <= filled + qty - 1
    ensures filled == 0 ==> Dropped(avg, filled, qty, price) == 0
  {
    NewAverageExact(low, high, avg, filled, price, qty);
    DivBounds(avg * filled + price * qty, filled + qty);
    if filled == 0 {
      DivUnique(price * qty, qty, price, 0);
    }
  }

  lemma LossIsDropped(fills: seq<FillRecord>)
    requires fills != []
    ensures var shorter, f := fills[..|fills| - 1], fills[|fills| - 1];
      && RoundingLoss(fills) - RoundingLoss(shorter) == Dropped(Average(shorter), Quantity(shorter), f.qty, f.price)
      && Quantity(fills) == Quantity(shorter) + f.qty
  {
  }

  /** As long as nothing is filled nothing is lost. */
  lemma {:induction false} NothingFilled(fills: seq<FillRecord>)
    requires Quantity(fills) == 0
    ensures Average(fills) == 0 && TotalValue(fills) == 0 && RoundingLoss(fills) == 0
  {
    if fills != [] {
      NothingFilled(fills[..|fills| - 1]);
    }
  }

  lemma LossStep(fills: seq<FillRecord>, high: nat)
    requires 0 < Quantity(fills) < U64 && PricesWithin(fills, 0, high) && high < U64
    ensures var loss := RoundingLoss(fills) - RoundingLoss(fills[..|fills| - 1]);
      0 <= loss <= Quantity(fills) - 1 && (Quantity(fills[..|fills| - 1]) == 0 ==> loss == 0)
  {
    var shorter, f := fills[..|fills| - 1], fills[|fills| - 1];
    if Quantity(shorter) > 0 {
      AverageWithinPrices(shorter, 0, high);
    }
    DroppedByFill(0, high, Average(shorter), Quantity(shorter), f.price, f.qty);
    LossIsDropped(fills);
  }

  lemma BoundGrows(n: nat, small: int, large: int, loss: int, step: int)
    requires 2 <= n && 0 <= small <= large && loss <= (n - 2) * small && step <= large
    ensures loss + step <= (n - 1) * large
  {
    MulMonotone(small, large, n - 2);
    assert (n - 2) * large + large == (n - 1) * large;
  }

  /**
   Although every fill rounds the average down and reuses the rounded value, after `n`
   fills of total value V and quantity F the error V - average * F is between 0 and
   (n - 1) * (F - 1).
   */
  lemma {:induction false} RoundingBounded(fills: seq<FillRecord>, high: nat)
    requires 0 < Quantity(fills) < U64 && PricesWithin(fills, 0, high) && high < U64
    ensures 0 <= RoundingLoss(fills) <= (|fills| - 1) * (Quantity(fills) - 1)
  {
    var shorter := fills[..|fills| - 1];
    LossStep(fills, high);
    if Quantity(shorter) == 0 {
      NothingFilled(shorter);
      MulMonotone(0, Quantity(fills) - 1, |fills| - 1);
    } else {
      RoundingBounded(shorter, high);
      BoundGrows(|fills|, Quantity(shorter) - 1, Quantity(fills) - 1, RoundingLoss(shorter),
                 RoundingLoss(fills) - RoundingLoss(shorter));
    }
  }
}
