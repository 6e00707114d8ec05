/** `TestStrategy`, the backtrader strategy of the backtest: on every bar it
    buys when the close rose more than `buy_trigger` over the previous close
    while out of the market, and closes the position when the close leaves
    the band between the stop loss and the take profit around the entry
    price. It keeps at most one order it waits for; the broker's
    notifications clear it. */
module Strategy {
  import opened Wrappers

  /** The module-level settings the strategy reads. */
  const TradeSize: nat := 1
  const TakeProfit: real := 0.1
  const StopLoss: real := 0.05
  const BuyTrigger: real := 0.01

  /** backtrader's order states, in the order of its `Order.Status` list. */
  datatype OrderStatus =
    | Created | Submitted | Accepted | Partial | Completed
    | Canceled | Expired | Margin | Rejected

  /** The broker's position in the traded asset: its size (0 when flat) and
      its average entry price. */
  datatype Position = Position(size: int, price: real)

  /** What the strategy asks the broker for: a market buy, of `units` units or
      of the sizer's default when no size is given; or `close()`, an order
      that offsets the position of `held` units. */
  datatype Request = Buy(units: Option<nat>) | Close(held: int)

  /** An order the broker has accepted for processing: its reference number
      and the request. */
  datatype Order = Order(ref: nat, request: Request)

  /** A notification from the broker about one of the strategy's orders. */
  datatype Notification = Notification(ref: nat, status: OrderStatus)

  // ---------------------------------------------------------------------------
  // The trading rules
  // ---------------------------------------------------------------------------

  /** The close rose above the previous close by more than `buy_trigger` of
      it. */
  predicate BuySignal(close: real, prevClose: real) {
    close > prevClose + prevClose * BuyTrigger
  }

  /** The close is above the take-profit level or below the stop-loss level
      of the entry price. */
  predicate ExitSignal(close: real, entry: real) {
    close > entry + entry * TakeProfit || close < entry - entry * StopLoss
  }

  /** The buy rule in whole percentages: the close is above 101 % of the
      previous close. */
  lemma BuySignalPercent(close: real, prevClose: real)
    ensures BuySignal(close, prevClose) <==> 100.0 * close > 101.0 * prevClose
  {
  }

  /** The exit rule as leaving the band from 95 % to 110 % of the entry
      price. */
  lemma ExitSignalBand(close: real, entry: real)
    ensures ExitSignal(close, entry) <==> !(95.0 * entry <= 100.0 * close <= 110.0 * entry)
  {
  }

  // ---------------------------------------------------------------------------
  // The strategy's state and its transitions, as values
  // ---------------------------------------------------------------------------

  /** `order` is the order the strategy waits for, `barExecuted` the bar
      count when an order last completed (unset until then), and `nextRef` the
      reference the broker gives the next order. */
  datatype State = State(order: Option<Order>, barExecuted: Option<nat>, nextRef: nat)

  /** Every order the strategy waits for was issued before. */
  predicate Consistent(s: State) {
    s.order.Some? ==> s.order.value.ref < s.nextRef
  }

  /** The orders `next()` sends on one bar, in the order it sends them. */
  function NextRequests(pending: bool, close: real, prevClose: real, position: Position): (rs: seq<Request>)
  {
    if pending then []
    else
      (if position.size == 0 && BuySignal(close, prevClose) then [Buy(Some(TradeSize)), Buy(None)] else [])
      + (if position.size != 0 && ExitSignal(close, position.price) then [Close(position.size), Close(position.size)] else [])
  }

  /** The requests numbered from `ref` on. */
  function Numbered(rs: seq<Request>, ref: nat): (os: seq<Order>)
    ensures |os| == |rs|
    ensures forall i :: 0 <= i < |rs| ==> os[i] == Order(ref + i, rs[i])
  {
    seq(|rs|, i requires 0 <= i < |rs| => Order(ref + i, rs[i]))
  }

  /** `next()` on one bar: the new state and the orders sent. The order kept
      is the last one sent. */
  function NextStep(s: State, close: real, prevClose: real, position: Position): (r: (State, seq<Order>))
    ensures |r.1| == 0 || |r.1| == 2
    ensures forall i :: 0 <= i < |r.1| ==> r.1[i].ref == s.nextRef + i
    ensures r.0.nextRef == s.nextRef + |r.1|
    ensures r.0.order == if |r.1| == 0 then s.order else Some(r.1[|r.1| - 1])
    ensures r.0.barExecuted == s.barExecuted
  {
    var os := Numbered(NextRequests(s.order.Some?, close, prevClose, position), s.nextRef);
    var order := if |os| == 0 then s.order else Some(os[|os| - 1]);
    (State(order, s.barExecuted, s.nextRef + |os|), os)
  }

  /** `notify_order`: submitted and accepted orders change nothing; a
      completed order records the bar count; every other status, and a
      completion, frees the order slot, whichever order the notification is
      about. */
  function NotifyStep(s: State, n: Notification, barCount: nat): (r: State)
    ensures r.nextRef == s.nextRef
    ensures r.order.None? || r.order == s.order
    ensures r.barExecuted != s.barExecuted ==> n.status == Completed && r.barExecuted == Some(barCount)
  {
    if n.status == Submitted || n.status == Accepted then s
    else
      var bar := if n.status == Completed then Some(barCount) else s.barExecuted;
      State(None, bar, s.nextRef)
  }

  // ---------------------------------------------------------------------------
  // What the rules promise
  // ---------------------------------------------------------------------------

  /** While an order is pending `next()` sends nothing and changes nothing. */
  lemma PendingBlocks(s: State, close: real, prevClose: real, position: Position)
    requires s.order.Some?
    ensures NextStep(s, close, prevClose, position) == (s, [])
  {
  }

  /** Out of the market with no order pending, `next()` buys exactly when
      the buy rule fires: two market buys, one of `trade_size` units and one
      of the sizer's default, and it waits for the second only. Otherwise it
      does nothing. */
  lemma BuyRule(s: State, close: real, prevClose: real, position: Position)
    requires s.order.None? && position.size == 0
    ensures var (t, os) := NextStep(s, close, prevClose, position);
      && (BuySignal(close, prevClose) ==>
            && os == [Order(s.nextRef, Buy(Some(TradeSize))), Order(s.nextRef + 1, Buy(None))]
            && t == State(Some(os[1]), s.barExecuted, s.nextRef + 2))
      && (!BuySignal(close, prevClose) ==> os == [] && t == s)
  {
    var rs := NextRequests(false, close, prevClose, position);
    if BuySignal(close, prevClose) {
      assert rs == [Buy(Some(TradeSize)), Buy(None)];
    } else {
      assert rs == [];
    }
  }

  /** In the market with no order pending, `next()` closes exactly when the
      exit rule fires: `close()` twice, each for the whole position, and it
      waits for the second. Otherwise it does nothing. It never buys more. */
  lemma ExitRule(s: State, close: real, prevClose: real, position: Position)
    requires s.order.None? && position.size != 0
    ensures var (t, os) := NextStep(s, close, prevClose, position);
      && (ExitSignal(close, position.price) ==>
            && os == [Order(s.nextRef, Close(position.size)), Order(s.nextRef + 1, Close(position.size))]
            && t == State(Some(os[1]), s.barExecuted, s.nextRef + 2))
      && (!ExitSignal(close, position.price) ==> os == [] && t == s)
  {
    var rs := NextRequests(false, close, prevClose, position);
    if ExitSignal(close, position.price) {
      assert rs == [Close(position.size), Close(position.size)];
    } else {
      assert rs == [];
    }
  }

  /** Inside the band, in the market, `next()` does nothing at all. */
  lemma HoldInsideBand(s: State, close: real, prevClose: real, position: Position)
    requires position.size != 0 && 95.0 * position.price <= 100.0 * close <= 110.0 * position.price
    ensures NextStep(s, close, prevClose, position) == (s, [])
  {
    ExitSignalBand(close, position.price);
    if s.order.None? {
      ExitRule(s, close, prevClose, position);
    }
  }

  /** `next()` keeps the state consistent: the orders it sends get fresh,
      consecutive references, and the one it waits for is among them. */
  lemma NextKeepsConsistent(s: State, close: real, prevClose: real, position: Position)
    requires Consistent(s)
    ensures var (t, os) := NextStep(s, close, prevClose, position);
      && Consistent(t) && t.nextRef == s.nextRef + |os|
      && (forall i :: 0 <= i < |os| ==> os[i].ref == s.nextRef + i)
      && (|os| > 0 ==> t.order == Some(os[|os| - 1]))
  {
  }

  /** Submitted and Accepted leave everything as it was. */
  lemma NotifyPassive(s: State, n: Notification, barCount: nat)
    requires n.status == Submitted || n.status == Accepted
    ensures NotifyStep(s, n, barCount) == s
  {
  }

  /** Every other status frees the order slot, even for an order the strategy
      does not wait for; only Completed records the bar count. */
  lemma NotifyClears(s: State, n: Notification, barCount: nat)
    requires n.status != Submitted && n.status != Accepted
    ensures NotifyStep(s, n, barCount).order.None?
    ensures NotifyStep(s, n, barCount).nextRef == s.nextRef
    ensures NotifyStep(s, n, barCount).barExecuted ==
      (if n.status == Completed then Some(barCount) else s.barExecuted)
  {
  }

  // ---------------------------------------------------------------------------
  // Runs of bars and notifications
  // ---------------------------------------------------------------------------

  /** What reaches the strategy: a bar (the close, the previous close and the
      broker's position at that bar) or a notification together with the bar
      count at that time. */
  datatype Event =
    | Bar(close: real, prevClose: real, position: Position)
    | Notify(note: Notification, barCount: nat)

  /** The state after one event. */
  function Step(s: State, e: Event): (t: State)
  {
    match e
    case Bar(c, p, pos) => NextStep(s, c, p, pos).0
    case Notify(n, b) => NotifyStep(s, n, b)
  }

  /** The state after a run of events. */
  function Run(s: State, events: seq<Event>): (t: State)
    decreases |events|
  {
    if |events| == 0 then s else Run(Step(s, events[0]), events[1..])
  }

  /** The state right after `__init__`: no order, no completion yet. */
  function Initial(firstRef: nat): (s: State)
    ensures Consistent(s) && s.order.None? && s.barExecuted.None?
  {
    State(None, None, firstRef)
  }

  /** Each event keeps the state consistent and never takes references
      back. */
  lemma StepKeepsConsistent(s: State, e: Event)
    requires Consistent(s)
    ensures Consistent(Step(s, e)) && Step(s, e).nextRef >= s.nextRef
  {
    if e.Bar? {
      NextKeepsConsistent(s, e.close, e.prevClose, e.position);
    }
  }

  /** Every run keeps the state consistent and never takes references back. */
  lemma {:induction false} RunKeepsConsistent(s: State, events: seq<Event>)
    requires Consistent(s)
    ensures Consistent(Run(s, events)) && Run(s, events).nextRef >= s.nextRef
    decreases |events|
  {
    if |events| > 0 {
      StepKeepsConsistent(s, events[0]);
      RunKeepsConsistent(Step(s, events[0]), events[1..]);
    }
  }

  /** Without a Completed notification the recorded bar count stays what it
      was: only completions write it. */
  lemma {:induction false} BarExecutedOnlyOnCompletion(s: State, events: seq<Event>)
    requires forall i :: 0 <= i < |events| ==> !(events[i].Notify? && events[i].note.status == Completed)
    ensures Run(s, events).barExecuted == s.barExecuted
    decreases |events|
  {
    if |events| > 0 {
      assert forall i :: 0 <= i < |events| - 1 ==> events[1..][i] == events[i + 1];
      BarExecutedOnlyOnCompletion(Step(s, events[0]), events[1..]);
    }
  }

  // ---------------------------------------------------------------------------
  // The strategy object
  // ---------------------------------------------------------------------------

  class TestStrategy {
    /** `self.order`: the order the strategy waits for. */
    var order: Option<Order>
    /** `self.bar_executed`: unset until an order completes. */
    var barExecuted: Option<nat>
    /** The reference the broker gives the next order (backtrader numbers its
        orders from a counter of its own). */
    var nextRef: nat

    /** The fields as a value. */
    function Snapshot(): State
      reads this
    {
      State(order, barExecuted, nextRef)
    }

    /** The class invariant: the order the strategy waits for was issued
        before. The constructor establishes it and both methods keep it; no
        postcondition depends on it. */
    predicate Valid()
      reads this
    {
      Consistent(Snapshot())
    }

    /** `__init__`: no order pending. */
    constructor(firstRef: nat)
      ensures Valid() && Snapshot() == Initial(firstRef)
    {
      order := None;
      barExecuted := None;
      nextRef := firstRef;
    }

    /** `next()` on a bar with close `close`, previous close `prevClose`
        and the broker's position `position`; returns the orders sent. */
    method Next(close: real, prevClose: real, position: Position) returns (sent: seq<Order>)
      requires Valid()
      modifies this
      ensures Valid()
      ensures (Snapshot(), sent) == NextStep(old(Snapshot()), close, prevClose, position)
    {
      sent := [];
      if order.Some? {
        PendingBlocks(Snapshot(), close, prevClose, position);
        return;
      }
      ghost var before := Snapshot();
      if position.size == 0 {
        if BuySignal(close, prevClose) {
          var first := Order(nextRef, Buy(Some(TradeSize)));
          var second := Order(nextRef + 1, Buy(None));
          sent := sent + [first, second];
          nextRef := nextRef + 2;
          order := Some(second);
        }
      }
      if position.size != 0 {
        if ExitSignal(close, position.price) {
          var first := Order(nextRef, Close(position.size));
          var second := Order(nextRef + 1, Close(position.size));
          sent := sent + [first, second];
          nextRef := nextRef + 2;
          order := Some(second);
        }
      }
      assert sent == [] || sent == [Order(before.nextRef, sent[0].request), Order(before.nextRef + 1, sent[1].request)];
      if position.size == 0 {
        BuyRule(before, close, prevClose, position);
      } else {
        ExitRule(before, close, prevClose, position);
      }
    }

    /** `notify_order(order)`, with the strategy's bar count `barCount`
        standing for `len(self)`. */
    method NotifyOrder(n: Notification, barCount: nat)
      requires Valid()
      modifies this
      ensures Valid()
      ensures Snapshot() == NotifyStep(old(Snapshot()), n, barCount)
    {
      if n.status == Submitted || n.status == Accepted {
        return;
      }
      if n.status == Completed {
        barExecuted := Some(barCount);
      }
      order := None;
    }
  }
}
