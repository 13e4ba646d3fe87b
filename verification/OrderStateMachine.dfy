/**
 The order objects and the fixed table that owns them: orders are created into the first
 empty slot, found by client id, and updated in place. Each method is proved against the
 function on the order as a value that `OrderLifecycle` reasons about.
 */
module OrderStateMachine {
  import opened Machine
  import opened OrderLifecycle

  class Order {
    const clientOrderId: nat
    const quantity: nat
    var exchangeOrderId: nat
    var state: OrderState
    var filledQty: nat
    var avgFillPrice: nat
    var remainingQty: nat
    var fillCount: nat
    var errorCode: nat
    var submitTime: nat
    var lastUpdateTime: nat
    var expireTime: nat

    function View(): OrderView
      reads this
    {
      OrderView(clientOrderId, exchangeOrderId, quantity, state, filledQty, avgFillPrice, remainingQty,
                fillCount, errorCode, submitTime, lastUpdateTime, expireTime)
    }

    constructor (clientOrderId: nat, quantity: nat)
      ensures View() == NewOrder(clientOrderId, quantity, 0)
    {
      this.clientOrderId, this.quantity := clientOrderId, quantity;
      exchangeOrderId, state, filledQty, avgFillPrice, remainingQty := 0, Pending, 0, 0, quantity;
      fillCount, errorCode, submitTime, lastUpdateTime, expireTime := 0, 0, 0, 0, 0;
    }

    method TransitionTo(newState: OrderState, now: nat) returns (ok: bool)
      modifies this
      ensures (View(), ok) == Transition(old(View()), newState, now)
    {
      if !IsValidTransition(Code(state), Code(newState)) {
        return false;
      }
      state := newState;
      lastUpdateTime := now;
      ok := true;
    }

    method ProcessFill(fillQty: nat, fillPrice: nat, now: nat) returns (ok: bool)
      modifies this
      ensures (View(), ok) == Fill(old(View()), fillQty, fillPrice, now)
    {
      var currentState := state;
      if !AllowsFills(currentState) {
        return false;
      }
      var oldFilled := filledQty;
      filledQty := (filledQty + fillQty) % U64;
      var newFilled := (oldFilled + fillQty) % U64;
      avgFillPrice := NewAverage(avgFillPrice, oldFilled, fillQty, fillPrice);
      remainingQty := if quantity >= newFilled then quantity - newFilled else 0;
      fillCount := fillCount + 1;
      if newFilled >= quantity {
        var moved := TransitionTo(Filled, now);
      } else if currentState != PartiallyFilled {
        var moved := TransitionTo(PartiallyFilled, now);
      }
      lastUpdateTime := now;
      ok := true;
    }

    method Handle(e: OrderEvent, now: nat) returns (ok: bool)
      modifies this
      ensures (View(), ok) == Process(old(View()), e, now)
    {
      match e
      case Submit =>
        submitTime := now;
        ok := TransitionTo(Submitted, now);
      case Ack(id) =>
        exchangeOrderId := id;
        ok := TransitionTo(Acknowledged, now);
      case FillBy(qty, price) =>
        ok := ProcessFill(qty, price, now);
      case Cancel =>
        if IsTerminal(state) {
          return false;
        }
        ok := TransitionTo(Cancelled, now);
      case Reject(code) =>
        errorCode := code;
        ok := TransitionTo(Rejected, now);
    }

    method CheckTimeout(now: nat) returns (counted: bool)
      modifies this
      ensures View() == Sweep(old(View()), now) && counted == TimedOut(old(View()), now)
    {
      if clientOrderId == 0 || IsTerminal(state) || !(expireTime > 0 && now >= expireTime) {
        return false;
      }
      var moved := TransitionTo(SystemCancelled, now);
      errorCode := 1;
      counted := true;
    }
  }

  class Manager {
    const orders: array<Order>
    var numActive: nat
    var nextOrderId: nat
    var timeoutEnabled: bool
    var defaultTimeoutCycles: nat

    /** Slots hold distinct objects; live client ids are distinct and already handed out. */
    ghost predicate Valid()
      reads this, orders, orders[..]
    {
      && nextOrderId > 0
      && (forall i, j :: 0 <= i < j < orders.Length ==> orders[i] != orders[j])
      && (forall i :: 0 <= i < orders.Length ==> orders[i].clientOrderId < nextOrderId)
      && (forall i, j :: 0 <= i < j < orders.Length && orders[i].clientOrderId != 0 ==>
            orders[i].clientOrderId != orders[j].clientOrderId)
    }

    constructor (maxOrders: nat)
      ensures Valid() && fresh(orders) && orders.Length == maxOrders
      ensures nextOrderId == 1 && numActive == 0 && timeoutEnabled && defaultTimeoutCycles == 3_000_000_000
      ensures forall i :: 0 <= i < orders.Length ==> fresh(orders[i]) && orders[i].View() == NewOrder(0, 0, 0)
    {
      var slots := EmptyOrders(maxOrders);
      orders := new Order[maxOrders](i requires 0 <= i < |slots| => slots[i]);
      numActive, nextOrderId, timeoutEnabled, defaultTimeoutCycles := 0, 1, true, 3_000_000_000;
    }

    static method EmptyOrders(n: nat) returns (slots: seq<Order>)
      ensures |slots| == n && forall i :: 0 <= i < n ==> fresh(slots[i]) && slots[i].View() == NewOrder(0, 0, 0)
      ensures forall i, j :: 0 <= i < j < n ==> slots[i] != slots[j]
    {
      slots := [];
      while |slots| < n
        invariant |slots| <= n && forall i :: 0 <= i < |slots| ==> fresh(slots[i]) && slots[i].View() == NewOrder(0, 0, 0)
        invariant forall i, j :: 0 <= i < j < |slots| ==> slots[i] != slots[j]
      {
        var empty := new Order(0, 0);
        slots := slots + [empty];
      }
    }

    /** The first empty slot is `idx`; None when every slot is taken. */
    method FindEmpty() returns (slot: Option<nat>)
      ensures slot.None? ==> forall i :: 0 <= i < orders.Length ==> orders[i].clientOrderId != 0
      ensures slot.Some? ==> slot.value < orders.Length && orders[slot.value].clientOrderId == 0
      ensures slot.Some? ==> forall i :: 0 <= i < slot.value ==> orders[i].clientOrderId != 0
    {
      for i := 0 to orders.Length
        invariant forall j :: 0 <= j < i ==> orders[j].clientOrderId != 0
      {
        if orders[i].clientOrderId == 0 {
          return Some(i);
        }
      }
      slot := None;
    }

    /** A new pending order with the next id takes the first empty slot, if there is one. */
    method CreateOrder(quantity: nat, goodTillCancel: bool, now: nat) returns (result: Option<nat>, ghost slot: nat)
      requires Valid()
      modifies this`numActive, this`nextOrderId, orders
      ensures Valid()
      ensures result.None? <==> forall i :: 0 <= i < orders.Length ==> old(orders[i].clientOrderId) != 0
      ensures result.None? ==> orders[..] == old(orders[..]) && numActive == old(numActive) && nextOrderId == old(nextOrderId)
      ensures result.Some? ==> result.value == old(nextOrderId) && nextOrderId == old(nextOrderId) + 1
      ensures result.Some? ==> numActive == old(numActive) + 1 && slot < orders.Length && fresh(orders[slot])
      ensures result.Some? ==> orders[..] == old(orders[..])[slot := orders[slot]]
      ensures result.Some? ==> old(orders[slot].clientOrderId) == 0
      ensures result.Some? ==>
        orders[slot].View() == NewOrder(result.value, quantity, if goodTillCancel then 0 else now + defaultTimeoutCycles)
    {
      slot := 0;
      var found := FindEmpty();
      if found.None? {
        return None, slot;
      }
      var idx := found.value;
      var clientId := nextOrderId;
      nextOrderId := nextOrderId + 1;
      var order := new Order(clientId, quantity);
      if !goodTillCancel {
        order.expireTime := now + defaultTimeoutCycles;
      }
      orders[idx] := order;
      numActive := numActive + 1;
      result, slot := Some(clientId), idx;
    }

    method FindSlot(clientId: nat) returns (slot: Option<nat>)
      requires Valid()
      ensures slot.None? ==> clientId == 0 || forall i :: 0 <= i < orders.Length ==> orders[i].clientOrderId != clientId
      ensures slot.Some? ==> clientId != 0 && slot.value < orders.Length && orders[slot.value].clientOrderId == clientId
    {
      if clientId == 0 || clientId > nextOrderId {
        return None;
      }
      for i := 0 to orders.Length
        invariant forall j :: 0 <= j < i ==> orders[j].clientOrderId != clientId
      {
        if orders[i].clientOrderId == clientId {
          return Some(i);
        }
      }
      slot := None;
    }

    /** The first `n` orders as values. */
    ghost function Views(n: nat): (v: seq<OrderView>)
      requires n <= orders.Length
      reads orders, orders[..]
      ensures |v| == n && forall i :: 0 <= i < n ==> v[i] == orders[i].View()
    {
      if n == 0 then [] else Views(n - 1) + [orders[n - 1].View()]
    }

    /** The event reaches the one order with that id, and no other. */
    method ProcessEvent(clientId: nat, event: OrderEvent, now: nat) returns (ok: bool)
      requires Valid()
      modifies orders[..]
      ensures Valid()
      ensures forall i :: 0 <= i < orders.Length ==>
        orders[i].View() == if clientId != 0 && orders[i].clientOrderId == clientId
                            then Process(old(orders[i].View()), event, now).0 else old(orders[i].View())
      ensures (exists i :: 0 <= i < orders.Length && clientId != 0 && orders[i].clientOrderId == clientId) ==>
        forall i :: 0 <= i < orders.Length && orders[i].clientOrderId == clientId ==>
          ok == Process(old(orders[i].View()), event, now).1
      ensures (forall i :: 0 <= i < orders.Length ==> clientId == 0 || orders[i].clientOrderId != clientId) ==> !ok
    {
      var slot := FindSlot(clientId);
      if slot.None? {
        return false;
      }
      ok := orders[slot.value].Handle(event, now);
    }

    /** Every order is swept once; the result counts the ones found timed out. */
    method CheckTimeouts(now: nat) returns (cancelled: nat)
      requires Valid()
      modifies orders[..]
      ensures Valid()
      ensures Views(orders.Length) == if timeoutEnabled then SweepAll(old(Views(orders.Length)), now) else old(Views(orders.Length))
      ensures cancelled == if timeoutEnabled then CountTimedOut(old(Views(orders.Length)), now) else 0
    {
      if !timeoutEnabled {
        return 0;
      }
      cancelled := SweepOrders(now, Views(orders.Length));
    }

    method SweepOrders(now: nat, ghost v: seq<OrderView>) returns (cancelled: nat)
      requires forall i, j :: 0 <= i < j < orders.Length ==> orders[i] != orders[j]
      requires |v| == orders.Length && forall i :: 0 <= i < orders.Length ==> orders[i].View() == v[i]
      modifies orders[..]
      ensures forall i :: 0 <= i < orders.Length ==> orders[i].View() == SweepAll(v, now)[i]
      ensures cancelled == CountTimedOut(v, now)
    {
      cancelled := 0;
      for i := 0 to orders.Length
        invariant forall j :: 0 <= j < i ==> orders[j].View() == Sweep(v[j], now)
        invariant forall j :: i <= j < orders.Length ==> orders[j].View() == v[j]
        invariant cancelled == CountTimedOut(v[..i], now)
      {
        assert v[..i + 1][..i] == v[..i];
        var counted := orders[i].CheckTimeout(now);
        if counted {
          cancelled := cancelled + 1;
        }
      }
      assert v[..orders.Length] == v;
    }
  }

  function SweepAll(v: seq<OrderView>, now: nat): (u: seq<OrderView>)
    ensures |u| == |v| && forall i :: 0 <= i < |v| ==> u[i] == Sweep(v[i], now)
  {
    if v == [] then [] else SweepAll(v[..|v| - 1], now) + [Sweep(v[|v| - 1], now)]
  }

  function CountTimedOut(v: seq<OrderView>, now: nat): nat {
    if v == [] then 0 else CountTimedOut(v[..|v| - 1], now) + (if TimedOut(v[|v| - 1], now) then 1 else 0)
  }

  function CountState(v: seq<OrderView>, s: OrderState): nat {
    if v == [] then 0 else CountState(v[..|v| - 1], s) + (if v[|v| - 1].state == s then 1 else 0)
  }

  /** How many timed-out orders were never submitted. */
  function CountStuck(v: seq<OrderView>, now: nat): nat {
    if v == [] then 0
    else CountStuck(v[..|v| - 1], now) + (if TimedOut(v[|v| - 1], now) && v[|v| - 1].state == Pending then 1 else 0)
  }

  /**
   `check_timeouts` reports more cancellations than it makes: the reported number is the
   number of orders moved to SystemCancelled plus the expired pending ones it cannot move.
   */
  lemma {:induction false} ReportedIsCancelledPlusStuck(v: seq<OrderView>, now: nat)
    ensures CountTimedOut(v, now)
      == CountState(SweepAll(v, now), SystemCancelled) - CountState(v, SystemCancelled) + CountStuck(v, now)
  {
    if v != [] {
      var n := |v| - 1;
      ReportedIsCancelledPlusStuck(v[..n], now);
      assert SweepAll(v, now)[..n] == SweepAll(v[..n], now);
    }
  }
}
