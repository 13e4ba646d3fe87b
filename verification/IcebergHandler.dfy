/**
 Iceberg orders: a hidden total shown in tranches, refilled from the hidden reserve each
 time the displayed amount has been taken.
 */
module IcebergHandler {
  import opened Machine

  datatype IcebergState = Pending | Active | PartiallyFilled | Completed | Cancelled

  datatype Iceberg = Iceberg(
    orderId: nat, totalQty: nat, visibleQty: nat, filledQty: nat, remainingVisible: nat,
    price: nat, side: nat, state: IcebergState, venueId: nat, minDisplayQty: nat, queuePosition: nat)

  const EMPTY_ICEBERG := Iceberg(0, 0, 0, 0, 0, 0, 0, Pending, 0, 0, 0)

  function Monus(a: nat, b: nat): nat {
    if a >= b then a - b else 0
  }

  function RemainingHidden(o: Iceberg): nat {
    Monus(Monus(o.totalQty, o.filledQty), o.remainingVisible)
  }

  function RemainingTotal(o: Iceberg): nat {
    Monus(o.totalQty, o.filledQty)
  }

  /** A share of the total in basis points, in wrapping u64 arithmetic, but at least one unit. */
  function MinDisplay(totalQty: nat, ratioBp: nat): (m: nat)
    ensures m >= 1
  {
    Max(((totalQty * ratioBp) % U64) / 10000, 1)
  }

  function NewIceberg(orderId: nat, totalQty: nat, price: nat, side: nat, venueId: nat, ratioBp: nat): Iceberg {
    var display := MinDisplay(totalQty, ratioBp);
    var visible := Min(display, totalQty);
    Iceberg(orderId, totalQty, visible, 0, visible, price, side, Active, venueId, display, 1)
  }

  /** Both branches of the queue-position test take the same amount. */
  function Refill(o: Iceberg, threshold: nat): Iceberg {
    var hidden := RemainingHidden(o);
    if hidden == 0 then o
    else
      var qty := if o.queuePosition <= threshold then Min(o.minDisplayQty, hidden) else Min(o.minDisplayQty, hidden);
      o.(remainingVisible := qty)
  }

  /** The filled quantity is a wrapping u64. */
  function NewFilled(o: Iceberg, qty: nat): nat {
    (o.filledQty + qty) % U64
  }

  /** One of our fills. */
  function Fill(o: Iceberg, qty: nat, threshold: nat): Iceberg {
    var a := o.(filledQty := NewFilled(o, qty), remainingVisible := Monus(o.remainingVisible, qty));
    var b := if a.filledQty >= a.totalQty then a.(state := Completed)
             else if a.filledQty > 0 then a.(state := PartiallyFilled)
             else a;
    if b.remainingVisible == 0 && b.filledQty < b.totalQty then Refill(b, threshold) else b
  }

  // ---------------------------------------------------------------- conservation

  predicate Conserved(o: Iceberg) {
    o.filledQty + o.remainingVisible + RemainingHidden(o) == o.totalQty
  }

  predicate Live(o: Iceberg) {
    o.state == Active || o.state == PartiallyFilled
  }

  /** A live order conserves quantity and always shows between 1 and its display size. */
  predicate Sound(o: Iceberg) {
    && Conserved(o) && 0 < o.minDisplayQty && o.totalQty < U64
    && (Live(o) ==> o.filledQty < o.totalQty && 1 <= o.remainingVisible <= o.minDisplayQty)
    && (o.state == Completed ==> o.filledQty == o.totalQty && o.remainingVisible == 0)
  }

  /** The display size that is meant: the order's share in basis points, but at least one unit. */
  function TrueDisplay(totalQty: nat, ratioBp: nat): nat {
    Max((totalQty * ratioBp) / 10000, 1)
  }

  /** The computed display size is the one meant if and only if the product fits a u64. */
  lemma DisplayExactIff(totalQty: nat, ratioBp: nat)
    ensures MinDisplay(totalQty, ratioBp) == TrueDisplay(totalQty, ratioBp) <==> totalQty * ratioBp < U64
  {
    var x := totalQty * ratioBp;
    if x < U64 {
      DivUnique(x, U64, 0, x);
    } else {
      LaterQuotient(x);
    }
  }

  lemma LaterQuotient(x: nat)
    requires x >= U64
    ensures (x % U64) / 10000 < x / 10000 && 1 < x / 10000
  {
    assert x % U64 <= x - U64;
    DivMonotone(x % U64, x - 10000, 10000);
    DivMonotone(U64, x, 10000);
    DivUnique(x - 10000, 10000, x / 10000 - 1, x % 10000);
  }

  /** With a ratio of at most one whole, no more than the order is shown. */
  lemma DisplayIsShare(totalQty: nat, ratioBp: nat)
    requires 0 < totalQty && ratioBp <= 10000
    ensures var m := TrueDisplay(totalQty, ratioBp);
      && m <= totalQty
      && (m * 10000 <= totalQty * ratioBp < (m + 1) * 10000 || (m == 1 && totalQty * ratioBp < 10000))
  {
    MulMonotone(ratioBp, 10000, totalQty);
    DivBounds(totalQty * ratioBp, 10000);
  }

  lemma NewIsSound(orderId: nat, totalQty: u64, price: nat, side: nat, venueId: nat, ratioBp: nat)
    requires totalQty > 0
    ensures Sound(NewIceberg(orderId, totalQty, price, side, venueId, ratioBp))
  {
  }

  /** A new order is active and unfilled, shows its display size or all of itself, and is first in the queue. */
  lemma NewOrderIs(orderId: nat, totalQty: nat, price: nat, side: nat, venueId: nat, ratioBp: nat)
    ensures var o := NewIceberg(orderId, totalQty, price, side, venueId, ratioBp);
      && o.orderId == orderId && o.totalQty == totalQty && o.price == price && o.side == side && o.venueId == venueId
      && o.state == Active && o.filledQty == 0 && o.queuePosition == 1
      && o.visibleQty == o.remainingVisible == Min(o.minDisplayQty, totalQty)
      && (totalQty * ratioBp < U64 ==> o.minDisplayQty == TrueDisplay(totalQty, ratioBp))
  {
    DisplayExactIff(totalQty, ratioBp);
  }

  /**
   A fill of a live order keeps filled + visible + hidden equal to the total exactly when
   it is no larger than what remains: an overfill, and only an overfill, breaks it.
   */
  lemma FillConservesIff(o: Iceberg, qty: nat, threshold: nat)
    requires Sound(o) && Live(o) && o.filledQty + qty < U64
    ensures Conserved(Fill(o, qty, threshold)) <==> qty <= RemainingTotal(o)
    ensures qty <= RemainingTotal(o) ==> Sound(Fill(o, qty, threshold))
    ensures qty <= RemainingTotal(o) ==>
      (Fill(o, qty, threshold).state == Completed <==> qty == RemainingTotal(o))
  {
  }

  /** What the rest of the proofs need of a fill within what remains. */
  ghost predicate Filled(o: Iceberg, qty: nat, p: Iceberg) {
    && Sound(p) && p.filledQty == o.filledQty + qty
    && p.totalQty == o.totalQty && p.minDisplayQty == o.minDisplayQty
    && (p.state == Completed <==> p.filledQty == p.totalQty) && (Live(p) || p.state == Completed)
  }

  lemma FillWithinTotal(o: Iceberg, qty: nat, threshold: nat)
    requires Sound(o) && Live(o) && 0 < qty <= RemainingTotal(o)
    ensures Filled(o, qty, Fill(o, qty, threshold))
  {
    FillConservesIff(o, qty, threshold);
  }

  /** A tranche taken in full is replaced by the next one. */
  lemma TrancheRefilled(o: Iceberg, threshold: nat)
    requires Sound(o) && Live(o)
    ensures var p := Fill(o, o.remainingVisible, threshold);
      Filled(o, o.remainingVisible, p) && (Live(p) ==> p.remainingVisible == Min(p.minDisplayQty, p.totalQty - p.filledQty))
  {
    FillWithinTotal(o, o.remainingVisible, threshold);
  }

  /** A fill of nothing leaves the order alone, except that one with fills is marked as partly filled. */
  lemma EmptyFill(o: Iceberg, threshold: nat)
    requires Sound(o) && Live(o)
    ensures Fill(o, 0, threshold) == o.(state := if o.filledQty > 0 then PartiallyFilled else o.state)
  {
  }

  /** What a fill within what remains does to the displayed amount, the filled quantity and the state. */
  lemma FillShows(o: Iceberg, qty: nat, threshold: nat)
    requires Sound(o) && Live(o) && 0 < qty <= RemainingTotal(o)
    ensures var p := Fill(o, qty, threshold);
      && p == o.(filledQty := o.filledQty + qty, remainingVisible := p.remainingVisible, state := p.state)
      && (qty < o.totalQty - o.filledQty ==> p.state == PartiallyFilled)
      && (qty == o.totalQty - o.filledQty ==> p.state == Completed && p.remainingVisible == 0)
      && (qty < o.remainingVisible ==> p.remainingVisible == o.remainingVisible - qty)
      && (o.remainingVisible <= qty < o.totalQty - o.filledQty ==>
            p.remainingVisible == Min(o.minDisplayQty, o.totalQty - o.filledQty - qty))
  {
    FillConservesIff(o, qty, threshold);
  }

  // ---------------------------------------------------------------- whole runs

  function AfterFills(o: Iceberg, fills: seq<nat>, threshold: nat): Iceberg {
    if fills == [] then o else Fill(AfterFills(o, fills[..|fills| - 1], threshold), fills[|fills| - 1], threshold)
  }

  function Total(fills: seq<nat>): nat {
    if fills == [] then 0 else Total(fills[..|fills| - 1]) + fills[|fills| - 1]
  }

  /** Each fill takes at least one unit and leaves the order's total within reach. */
  ghost predicate Fillable(o: Iceberg, fills: seq<nat>) {
    (forall i :: 0 <= i < |fills| ==> fills[i] > 0) && Total(fills) <= RemainingTotal(o)
  }

  /** In every run of fills quantity is conserved and an unfinished order stays on display. */
  lemma {:induction false} RunIsSound(o: Iceberg, fills: seq<nat>, threshold: nat)
    requires Sound(o) && Live(o) && Fillable(o, fills)
    ensures var p := AfterFills(o, fills, threshold);
      && Sound(p) && p.filledQty == o.filledQty + Total(fills)
      && p.totalQty == o.totalQty && p.minDisplayQty == o.minDisplayQty
      && (p.state == Completed <==> p.filledQty == p.totalQty) && (Live(p) || p.state == Completed)
  {
    if fills != [] {
      var shorter := fills[..|fills| - 1];
      RunIsSound(o, shorter, threshold);
      FillWithinTotal(AfterFills(o, shorter, threshold), fills[|fills| - 1], threshold);
    }
  }

  /** Partial fills within the displayed tranche leave exactly the tranche minus their sum on display. */
  lemma {:induction false} TrancheRunsDown(o: Iceberg, fills: seq<nat>, threshold: nat)
    requires Sound(o) && Live(o) && Fillable(o, fills) && Total(fills) < o.remainingVisible
    ensures var p := AfterFills(o, fills, threshold);
      && Live(p) && p.remainingVisible == o.remainingVisible - Total(fills)
      && p.filledQty == o.filledQty + Total(fills) && Sound(p)
      && p.totalQty == o.totalQty && p.minDisplayQty == o.minDisplayQty
  {
    if fills != [] {
      var shorter, qty := fills[..|fills| - 1], fills[|fills| - 1];
      TrancheRunsDown(o, shorter, threshold);
      FillWithinTotal(AfterFills(o, shorter, threshold), qty, threshold);
      FillShows(AfterFills(o, shorter, threshold), qty, threshold);
    }
  }

  /** The order after `k` fills that each take the whole displayed tranche. */
  function AfterTranches(o: Iceberg, k: nat, threshold: nat): Iceberg {
    if k == 0 then o
    else
      var p := AfterTranches(o, k - 1, threshold);
      Fill(p, p.remainingVisible, threshold)
  }

  function CeilDiv(a: nat, d: nat): nat
    requires d > 0
  {
    (a + d - 1) / d
  }

  /** A fresh order: nothing filled, the first tranche on display. */
  predicate Fresh(o: Iceberg) {
    Sound(o) && o.state == Active && o.filledQty == 0 && o.remainingVisible == Min(o.minDisplayQty, o.totalQty)
  }

  /** `p` is the order `o` with `k` display sizes filled, or everything, and the next tranche shown. */
  ghost predicate AtTranche(o: Iceberg, p: Iceberg, k: nat) {
    && Sound(p) && p.totalQty == o.totalQty && p.minDisplayQty == o.minDisplayQty
    && p.filledQty == Min(k * o.minDisplayQty, o.totalQty)
    && (p.state == Completed <==> p.filledQty == o.totalQty) && (Live(p) || p.state == Completed)
    && (Live(p) ==> p.remainingVisible == Min(p.minDisplayQty, p.totalQty - p.filledQty))
  }

  lemma TrancheStep(o: Iceberg, p: Iceberg, k: nat, threshold: nat)
    requires 0 < o.minDisplayQty && 0 < k <= CeilDiv(o.totalQty, o.minDisplayQty) && AtTranche(o, p, k - 1)
    ensures AtTranche(o, Fill(p, p.remainingVisible, threshold), k)
  {
    NextTranche(k, o.totalQty, o.minDisplayQty);
    TrancheRefilled(p, threshold);
  }

  /** After `k` tranches a fresh order has filled `k` display sizes, or everything. */
  lemma {:induction false} TranchesFill(o: Iceberg, k: nat, threshold: nat)
    requires Fresh(o) && k <= CeilDiv(o.totalQty, o.minDisplayQty)
    ensures AtTranche(o, AfterTranches(o, k, threshold), k)
  {
    if k > 0 {
      TranchesFill(o, k - 1, threshold);
      TrancheStep(o, AfterTranches(o, k - 1, threshold), k, threshold);
    }
  }

  lemma NextTranche(k: nat, total: nat, display: nat)
    requires 0 < display && 0 < k <= CeilDiv(total, display)
    ensures (k - 1) * display < total
    ensures Min(k * display, total) == (k - 1) * display + Min(display, total - (k - 1) * display)
  {
    CeilDivBelow(k - 1, total, display);
    assert k * display == (k - 1) * display + display;
  }

  lemma CeilDivBelow(k: nat, a: nat, d: nat)
    requires d > 0
    ensures k < CeilDiv(a, d) <==> k * d < a
  {
    DivBounds(a + d - 1, d);
    if k < CeilDiv(a, d) {
      MulMonotone(k + 1, CeilDiv(a, d), d);
    } else {
      MulMonotone(CeilDiv(a, d), k, d);
    }
  }

  /** Filling each displayed tranche completes a new order in exactly ceil(total / display) fills. */
  lemma CompletesInCeil(o: Iceberg, k: nat, threshold: nat)
    requires Fresh(o) && k <= CeilDiv(o.totalQty, o.minDisplayQty)
    ensures AfterTranches(o, k, threshold).state == Completed <==> k == CeilDiv(o.totalQty, o.minDisplayQty)
  {
    TranchesFill(o, k, threshold);
    CeilDivBelow(k, o.totalQty, o.minDisplayQty);
  }

  // ---------------------------------------------------------------- the handler in place

  function CountLive(orders: seq<Iceberg>): nat {
    if orders == [] then 0
    else CountLive(orders[..|orders| - 1]) + (if Live(orders[|orders| - 1]) then 1 else 0)
  }

  lemma {:induction false} CountLiveUpdate(orders: seq<Iceberg>, i: nat, o: Iceberg)
    requires i < |orders|
    ensures CountLive(orders[i := o]) ==
      CountLive(orders) - (if Live(orders[i]) then 1 else 0) + (if Live(o) then 1 else 0)
  {
    var n := |orders| - 1;
    if i < n {
      assert orders[i := o][..n] == orders[..n][i := o];
      CountLiveUpdate(orders[..n], i, o);
    } else {
      assert orders[i := o][..n] == orders[..n];
    }
  }

  /** The change of `num_active` that a fill makes. */
  function ActiveChange(o: Iceberg, qty: nat): int {
    if NewFilled(o, qty) >= o.totalQty then -1 else 0
  }

  /**
   A fill moves `num_active` in step with the number of live orders exactly when it hits a
   live one: on a finished order it subtracts again or revives it uncounted.
   */
  lemma ActiveCountIff(o: Iceberg, qty: nat, threshold: nat)
    requires 0 < qty && o.filledQty + qty < U64 && (o.state == Completed ==> o.filledQty >= o.totalQty)
    ensures (if Live(Fill(o, qty, threshold)) then 1 else 0) - (if Live(o) then 1 else 0) == ActiveChange(o, qty)
      <==> Live(o)
  {
  }

  /** A cancellation moves `num_active` in step with the number of live orders exactly when the slot was live. */
  lemma CancelCountIff(orders: seq<Iceberg>, idx: nat)
    requires idx < |orders|
    ensures CountLive(orders[idx := orders[idx].(state := Cancelled)]) == CountLive(orders) - 1 <==> Live(orders[idx])
  {
    CountLiveUpdate(orders, idx, orders[idx].(state := Cancelled));
  }

  class Handler {
    const orders: array<Iceberg>
    var numActive: int
    var displayRatioBp: nat
    var refillThreshold: nat

    /** Live orders are named and sound, and `numActive` counts them. */
    ghost predicate Valid()
      reads this, orders
    {
      && (forall i :: 0 <= i < orders.Length && orders[i].orderId == 0 ==> !Live(orders[i]))
      && (forall i :: 0 <= i < orders.Length && orders[i].orderId != 0 ==> Sound(orders[i]))
      && numActive == CountLive(orders[..])
    }

    constructor (maxOrders: nat)
      ensures Valid() && fresh(orders) && orders.Length == maxOrders && numActive == 0
    {
      orders := new Iceberg[maxOrders](_ => EMPTY_ICEBERG);
      numActive, displayRatioBp, refillThreshold := 0, 1000, 10;
      new;
      NoneLive(orders[..]);
    }

    lemma {:induction false} NoneLive(s: seq<Iceberg>)
      requires forall i :: 0 <= i < |s| ==> !Live(s[i])
      ensures CountLive(s) == 0
    {
      if s != [] {
        NoneLive(s[..|s| - 1]);
      }
    }

    method FindEmpty() returns (slot: Option<nat>)
      ensures slot.Some? ==> slot.value < orders.Length && orders[slot.value].orderId == 0
      ensures slot.Some? ==> forall i :: 0 <= i < slot.value ==> orders[i].orderId != 0
      ensures slot.None? ==> forall i :: 0 <= i < orders.Length ==> orders[i].orderId != 0
    {
      slot := None;
      for i := 0 to orders.Length
        invariant slot.None? ==> forall j :: 0 <= j < i ==> orders[j].orderId != 0
        invariant slot.Some? ==> slot.value < i && orders[slot.value].orderId == 0
        invariant slot.Some? ==> forall j :: 0 <= j < slot.value ==> orders[j].orderId != 0
      {
        var isEmpty := orders[i].orderId == 0;
        if isEmpty && slot.None? {
          slot := Some(i);
        }
      }
    }

    method CreateIceberg(orderId: nat, totalQty: u64, price: nat, side: nat, venueId: nat) returns (result: Option<nat>)
      requires Valid()
      modifies this`numActive, orders
      ensures orderId != 0 ==> Valid()
      ensures result.None? <==>
        totalQty == 0 || price == 0 || forall i :: 0 <= i < orders.Length ==> old(orders[i].orderId) != 0
      ensures result.None? ==> orders[..] == old(orders[..]) && numActive == old(numActive)
      ensures result.Some? ==> result.value < orders.Length && old(orders[result.value].orderId) == 0
      ensures result.Some? ==>
        orders[..] == old(orders[..])[result.value := NewIceberg(orderId, totalQty, price, side, venueId, displayRatioBp)]
      ensures result.Some? ==> numActive == old(numActive) + 1
    {
      if totalQty == 0 || price == 0 {
        return None;
      }
      var slot := FindEmpty();
      if slot.None? {
        return None;
      }
      var idx := slot.value;
      var order := NewIceberg(orderId, totalQty, price, side, venueId, displayRatioBp);
      NewIsSound(orderId, totalQty, price, side, venueId, displayRatioBp);
      CountLiveUpdate(orders[..], idx, order);
      orders[idx] := order;
      numActive := numActive + 1;
      result := Some(idx);
    }

    method ProcessLevelFill(idx: nat, fillQty: nat, isOurFill: bool)
      requires Valid()
      modifies this`numActive, orders
      ensures idx >= orders.Length || !isOurFill ==> orders[..] == old(orders[..]) && numActive == old(numActive)
      ensures idx < orders.Length && isOurFill ==>
        && orders[..] == old(orders[..])[idx := Fill(old(orders[idx]), fillQty, refillThreshold)]
        && numActive == old(numActive) + ActiveChange(old(orders[idx]), fillQty)
      ensures idx >= orders.Length || !isOurFill ==> Valid()
      ensures idx < orders.Length && isOurFill && Live(old(orders[idx])) && 0 < fillQty <= RemainingTotal(old(orders[idx])) ==> Valid()
    {
      if idx >= orders.Length || !isOurFill {
        return;
      }
      var order := orders[idx];
      var filled := Fill(order, fillQty, refillThreshold);
      CountLiveUpdate(orders[..], idx, filled);
      if Live(order) && 0 < fillQty <= RemainingTotal(order) {
        ActiveCountIff(order, fillQty, refillThreshold);
        FillConservesIff(order, fillQty, refillThreshold);
      }
      orders[idx] := filled;
      if (order.filledQty + fillQty) % U64 >= order.totalQty {
        numActive := numActive - 1;
      }
    }

    method CancelOrder(idx: nat) returns (ok: bool)
      requires Valid()
      modifies this`numActive, orders
      ensures ok <==> idx < orders.Length && old(orders[idx]).state != Completed && old(orders[idx]).state != Cancelled
      ensures orders[..] == if ok then old(orders[..])[idx := old(orders[idx]).(state := Cancelled)] else old(orders[..])
      ensures numActive == old(numActive) - (if ok then 1 else 0)
      ensures Valid() <==> (ok ==> Live(old(orders[idx])))
    {
      if idx >= orders.Length {
        return false;
      }
      var order := orders[idx];
      if order.state == Completed || order.state == Cancelled {
        return false;
      }
      CancelCountIff(orders[..], idx);
      orders[idx] := order.(state := Cancelled);
      numActive := numActive - 1;
      ok := true;
    }
  }
}
