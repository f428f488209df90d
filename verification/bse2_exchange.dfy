/** The BSE2 `Exchange`: a lit pool and a dark pool, the consolidated tape,
    the traders' records and the order-id counter; `process_order`, which
    routes each order to a pool and books the response, and `publish_lob`,
    the public view of the lit pool. */
module Bse2Exchange {
  import opened Wrappers
  import opened Dicts
  import opened Messages
  import opened Depth
  import opened Bse2Lob
  import opened Bse2Half
  import opened Bse2Venue

  /** Orders of this quantity or more are block trades and go to the dark
      pool. */
  const BlockSize: int := 300

  /** The exchange's record of one trader: id, registration time and fee
      balance. */
  datatype TraderRecord = TraderRecord(tid: string, regTime: real, balance: int)

  type Ledger = d: Dict<string, TraderRecord> | UniqueKeys(d) witness []

  /** The state of an `Exchange`. Its last transaction is set by
      `tape_update`; it is the exchange's own, not either pool's. */
  datatype Exchange = Exchange(
    eid: string,
    lit: Venue,
    drk: Venue,
    tape: seq<TapeEvent>,
    traders: Ledger,
    orderId: int,
    isOpen: bool,
    lastTrade: Option<LastTrade>)

  /** A new exchange: empty pools named after it, an empty tape, no traders,
      order ids starting at zero, closed. */
  function NewExchange(eid: string): (x: Exchange)
    ensures x.lit.id == eid + "Lit" && x.drk.id == eid + "Drk"
    ensures SidesOk(x.lit) && SidesOk(x.drk)
    ensures |x.lit.bids.orders| == 0 && |x.lit.asks.orders| == 0
    ensures |x.drk.bids.orders| == 0 && |x.drk.asks.orders| == 0
    ensures x.lit.lastTrade.None? && x.drk.lastTrade.None? && x.lastTrade.None?
    ensures x.tape == [] && |x.traders| == 0 && x.orderId == 0 && !x.isOpen
  {
    Exchange(eid, NewVenue(eid + "Lit"), NewVenue(eid + "Drk"), [], [], 0, false, None)
  }

  /** Register a trader not seen before, with a zero balance; a known
      trader's record is left as it is. */
  function Register(x: Exchange, time: real, tid: string): (r: Exchange)
    ensures tid in Keys(r.traders)
    ensures tid in Keys(x.traders) ==> r == x
    ensures tid !in Keys(x.traders) ==>
      && r == x.(traders := r.traders)
      && Get(r.traders, tid) == Some(TraderRecord(tid, time, 0))
      && (forall k :: k != tid ==> Get(r.traders, k) == Get(x.traders, k))
  {
    if tid in Keys(x.traders) then x
    else
      assert forall k :: k != tid ==> Get(Put(x.traders, tid, TraderRecord(tid, time, 0)), k) == Get(x.traders, k) by {
        forall k | k != tid {
          GetPut(x.traders, tid, TraderRecord(tid, time, 0), k);
        }
      }
      GetPut(x.traders, tid, TraderRecord(tid, time, 0), tid);
      x.(traders := Put(x.traders, tid, TraderRecord(tid, time, 0)))
  }

  predicate ToLit(order: Order) {
    order.qty < BlockSize
  }

  function PoolOf(x: Exchange, order: Order): Venue {
    if ToLit(order) then x.lit else x.drk
  }

  function WithPool(x: Exchange, order: Order, v: Venue): Exchange {
    if ToLit(order) then x.(lit := v) else x.(drk := v)
  }

  /** OCO and OSO orders never execute: `len` fails on an order without
      style parameters, a pair of two LIM legs stops the program, and
      anything else reaches a pool method that does not exist. */
  function OxoFailure(order: Order): Failure {
    match order.styleparams
    case None => Crash("TypeError: object of type 'NoneType' has no len()")
    case Some(Legs(a, b)) =>
      if a.ostyle == Limit && b.ostyle == Limit then Exit("Give up")
      else Crash("AttributeError: Orderbook has no attribute 'process_order_OXO'")
    case Some(ExpiryTime(_)) => Crash("AttributeError: Orderbook has no attribute 'process_order_OXO'")
  }

  /** The styles `process_order` handles without failing. */
  predicate Supported(s: Style) {
    s in {Limit, GoodForDay, Market, FillOrKill, ImmediateOrCancel,
          LimitOnOpen, MarketOnOpen, LimitOnClose, MarketOnClose}
  }

  /** The styles whose branch of `process_order` always fails. */
  predicate Broken(s: Style) {
    s.CancelAll? || s.AllOrNone? || s.OneCancelsOther? || s.OneSendsOther? || s.Iceberg? || s.OtherStyle?
  }

  /** How the branches for AON, OCO, OSO, ICE and unknown styles fail. An
      AON order is put on the resting list and handed to `book_take` on the
      opposite side: when that side is not empty and lacks the depth to fill
      it, `book_take` raises on `order.oid`; otherwise it returns, and
      reading `.event` off the returned list of trader messages raises. An
      unknown style reaches `sys.exit` with two arguments, itself an
      error. */
  function StyleFailure(pool: Venue, order: Order): Failure {
    match order.ostyle
    case AllOrNone =>
      if order.otype.OtherType? then Exit("process_order_take() given neither Bid nor Ask")
      else
        var book := OwnSide(pool, Opposite(order.otype));
        if |Lob(book)| > 0 && TakeDepth(book, order) < order.qty then
          Crash("AttributeError: Order instance has no attribute 'oid'")
        else Crash("AttributeError: 'list' object has no attribute 'event'")
    case OneCancelsOther => OxoFailure(order)
    case OneSendsOther => OxoFailure(order)
    case Iceberg => Crash("AttributeError: Orderbook has no attribute 'process_order_ICE'")
    case _ => Crash("TypeError: exit expected at most 1 arguments")
  }

  /** Hand a new order (already carrying its order id) to the pool method
      for its style: LIM and GFD to `process_order_LIM`, MKT, FOK and IOC to
      `process_order_take`, LOO, MOO, LOC and MOC to
      `process_order_pending`. */
  function Dispatch(pool: Venue, time: real, order: Order): (r: Result<Step>)
    requires order.ostyle != Cancel && order.ostyle != CancelAll
    ensures r.Ok? <==> Supported(order.ostyle) && !order.otype.OtherType?
    ensures r.Ok? ==> OnlySide(pool, r.value.venue, Bid) || OnlySide(pool, r.value.venue, Ask)
  {
    var s := order.ostyle;
    if s == Limit || s == GoodForDay then ProcessOrderLim(pool, time, order)
    else if s == Market || s == FillOrKill || s == ImmediateOrCancel then ProcessOrderTake(pool, time, order)
    else if AtOpen(s) || AtClose(s) then ProcessOrderPending(pool, order)
    else Err(StyleFailure(pool, order))
  }

  /** The exchange after the pool has acted, with the pool's response. */
  datatype Routed = Routed(exchange: Exchange, response: Response)

  /** How the XXX branch fails. `process_order_XXX` runs on both pools and
      iterates each side's dictionary of orders, which yields order ids, and
      reads `.tid` off them: that raises as soon as either pool holds a live
      order. With all four sides empty both pools return empty lists, and
      `consolidate_responses` then indexes a list with a string. */
  function CancelAllFailure(x: Exchange): Failure {
    if |x.lit.bids.orders| > 0 || |x.lit.asks.orders| > 0 || |x.drk.bids.orders| > 0 || |x.drk.asks.orders| > 0 then
      Crash("AttributeError: 'int' object has no attribute 'tid'")
    else Crash("TypeError: list indices must be integers, not str")
  }

  /** The part of `process_order` before the response is booked: register
      the trader, choose the pool by quantity, then cancel (which takes no
      order id), fail on XXX, or give the order the next order id and
      dispatch it. */
  function Route(x: Exchange, time: real, order: Order): (r: Result<Routed>)
    ensures order.ostyle == Cancel ==>
      (r.Ok? <==> !order.otype.OtherType? && order.orderid in Keys(OwnSide(PoolOf(x, order), order.otype).orders))
    ensures order.ostyle != Cancel ==> (r.Ok? <==> Supported(order.ostyle) && !order.otype.OtherType?)
  {
    var x1 := Register(x, time, order.tid);
    var pool := PoolOf(x1, order);
    if order.ostyle == Cancel then
      var step :- ProcessOrderCan(pool, time, order);
      Ok(Routed(WithPool(x1, order, step.venue), step.response))
    else if order.ostyle == CancelAll then
      Err(CancelAllFailure(x1))
    else
      var o := order.(orderid := x1.orderId);
      var step :- Dispatch(pool, time, o);
      Ok(Routed(WithPool(x1.(orderId := x1.orderId + 1), order, step.venue), step.response))
  }

  /** Routing registers the trader, advances the order id for every order
      but a cancellation, and changes only the pool the order went to, and
      in that pool neither the tape nor the last transaction. */
  lemma RouteSpec(x: Exchange, time: real, order: Order)
    ensures
      var r := Route(x, time, order);
      r.Ok? ==>
        var y := r.value.exchange;
        && order.tid in Keys(y.traders)
        && y.orderId == x.orderId + (if order.ostyle == Cancel then 0 else 1)
        && y.tape == x.tape && y.lastTrade == x.lastTrade && y.eid == x.eid
        && (ToLit(order) ==> y.drk == x.drk) && (!ToLit(order) ==> y.lit == x.lit)
        && y.lit.lastTrade == x.lit.lastTrade && y.drk.lastTrade == x.drk.lastTrade
  {
    if Route(x, time, order).Ok? {
      if order.ostyle == Cancel {
        RouteCancelSpec(x, time, order);
      } else {
        RouteDispatchSpec(x, time, order);
      }
    }
  }

  lemma RouteCancelSpec(x: Exchange, time: real, order: Order)
    requires order.ostyle == Cancel && Route(x, time, order).Ok?
    ensures
      var y := Route(x, time, order).value.exchange;
      && order.tid in Keys(y.traders)
      && y.orderId == x.orderId + (if order.ostyle == Cancel then 0 else 1)
      && y.tape == x.tape && y.lastTrade == x.lastTrade && y.eid == x.eid
      && (ToLit(order) ==> y.drk == x.drk) && (!ToLit(order) ==> y.lit == x.lit)
      && y.lit.lastTrade == x.lit.lastTrade && y.drk.lastTrade == x.drk.lastTrade
  {
    var x1 := Register(x, time, order.tid);
    var step := ProcessOrderCan(PoolOf(x1, order), time, order).value;
    assert Route(x, time, order).value.exchange == WithPool(x1, order, step.venue);
  }

  lemma RouteDispatchSpec(x: Exchange, time: real, order: Order)
    requires order.ostyle != Cancel && Route(x, time, order).Ok?
    ensures
      var y := Route(x, time, order).value.exchange;
      && order.tid in Keys(y.traders)
      && y.orderId == x.orderId + 1
      && y.tape == x.tape && y.lastTrade == x.lastTrade && y.eid == x.eid
      && (ToLit(order) ==> y.drk == x.drk) && (!ToLit(order) ==> y.lit == x.lit)
      && y.lit.lastTrade == x.lit.lastTrade && y.drk.lastTrade == x.drk.lastTrade
  {
    var x1 := Register(x, time, order.tid);
    var o := order.(orderid := x1.orderId);
    var step := Dispatch(PoolOf(x1, order), time, o).value;
    assert Route(x, time, order).value.exchange == WithPool(x1.(orderId := x1.orderId + 1), order, step.venue);
  }

  // ---------------------------------------------------------------------
  // Booking the response.

  /** The exchange's summary of the trades an order caused: their time,
      average price and total quantity; the parties are left out. */
  datatype TapeSummary = TapeSummary(time: real, price: int, qty: int)

  /** What `process_order` returns: the tape summary and the trader
      messages. */
  datatype Report = Report(summary: Option<TapeSummary>, msgs: Option<seq<ExchMsg>>)

  datatype Processed = Processed(exchange: Exchange, report: Report)

  /** Fees charged to trader `tid` in a list of messages. */
  function FeesFor(msgs: seq<ExchMsg>, tid: string): int {
    if |msgs| == 0 then 0
    else FeesFor(msgs[..|msgs| - 1], tid) + (if msgs[|msgs| - 1].tid == tid then msgs[|msgs| - 1].fee else 0)
  }

  /** A trader's record after paying `fee`. */
  function Charged(rec: TraderRecord, fee: int): TraderRecord {
    rec.(balance := rec.balance + fee)
  }

  /** `tape_update`: append one event; a trade also becomes the exchange's
      last transaction. */
  function TapeUpdate(x: Exchange, ev: TapeEvent): Exchange {
    var x' := x.(tape := x.tape + [ev]);
    if ev.Trade? then x'.(lastTrade := Some(LastTrade(ev.time, ev.price, ev.qty))) else x'
  }

  /** `tape_update` for each event in turn. */
  function RecordEvents(x: Exchange, evs: seq<TapeEvent>): Exchange
    decreases |evs|
  {
    if |evs| == 0 then x else RecordEvents(TapeUpdate(x, evs[0]), evs[1..])
  }

  /** The latest trade among some events, found by searching from the end. */
  function LatestTrade(evs: seq<TapeEvent>): Option<LastTrade> {
    if |evs| == 0 then None
    else
      var e := evs[|evs| - 1];
      if e.Trade? then Some(LastTrade(e.time, e.price, e.qty)) else LatestTrade(evs[..|evs| - 1])
  }

  lemma {:induction false} LatestTradeCons(e: TapeEvent, evs: seq<TapeEvent>)
    ensures LatestTrade([e] + evs)
            == if LatestTrade(evs).Some? then LatestTrade(evs)
               else if e.Trade? then Some(LastTrade(e.time, e.price, e.qty)) else None
  {
    if |evs| > 0 {
      assert ([e] + evs)[..|[e] + evs| - 1] == [e] + evs[..|evs| - 1];
      LatestTradeCons(e, evs[..|evs| - 1]);
    }
  }

  /** Recording events appends them to the tape in order, and the last
      transaction becomes the latest trade among them, if there is one. */
  lemma {:induction false} RecordEventsSpec(x: Exchange, evs: seq<TapeEvent>)
    ensures
      var y := RecordEvents(x, evs);
      && y == x.(tape := y.tape, lastTrade := y.lastTrade)
      && y.tape == x.tape + evs
      && y.lastTrade == if LatestTrade(evs).Some? then LatestTrade(evs) else x.lastTrade
    decreases |evs|
  {
    if |evs| > 0 {
      RecordEventsSpec(TapeUpdate(x, evs[0]), evs[1..]);
      LatestTradeCons(evs[0], evs[1..]);
      assert [evs[0]] + evs[1..] == evs;
      assert x.tape + [evs[0]] + evs[1..] == x.tape + evs;
    }
  }

  /** Sum of price times quantity over the trades of a tape. */
  function TradeCost(tape: seq<TapeEvent>): int {
    if |tape| == 0 then 0
    else TradeCost(tape[..|tape| - 1])
         + (if tape[|tape| - 1].Trade? then tape[|tape| - 1].price * tape[|tape| - 1].qty else 0)
  }

  /** The tape summary: the volume-weighted average price (rounded down) and
      the total quantity of the trades, or none when nothing traded. */
  function Summarise(time: real, tape: seq<TapeEvent>): Option<TapeSummary> {
    if |tape| > 0 && TradedQty(tape) > 0 then
      Some(TapeSummary(time, TradeCost(tape) / TradedQty(tape), TradedQty(tape)))
    else None
  }

  /** Sum of the prices of the trades of a tape, each counted once whatever
      its quantity. */
  function PriceSum(tape: seq<TapeEvent>): int {
    if |tape| == 0 then 0
    else PriceSum(tape[..|tape| - 1]) + (if tape[|tape| - 1].Trade? then tape[|tape| - 1].price else 0)
  }

  /** The tape summary as written: the "total cost" adds up prices, not
      price times quantity. */
  function SummariseAsWritten(time: real, tape: seq<TapeEvent>): Option<TapeSummary> {
    if |tape| > 0 && TradedQty(tape) > 0 then
      Some(TapeSummary(time, PriceSum(tape) / TradedQty(tape), TradedQty(tape)))
    else None
  }

  /** Every trade of the tape has a non-negative quantity and a price in
      [lo, hi]. */
  predicate TradesWithin(tape: seq<TapeEvent>, lo: int, hi: int) {
    forall i :: 0 <= i < |tape| && tape[i].Trade? ==> tape[i].qty >= 0 && lo <= tape[i].price <= hi
  }

  lemma Distrib(a: int, b: int, c: int)
    ensures a * (b + c) == a * b + a * c
  {
  }

  lemma {:induction false} CostBounds(tape: seq<TapeEvent>, lo: int, hi: int)
    requires TradesWithin(tape, lo, hi)
    ensures lo * TradedQty(tape) <= TradeCost(tape) <= hi * TradedQty(tape)
  {
    if |tape| > 0 {
      var init := tape[..|tape| - 1];
      var e := tape[|tape| - 1];
      assert TradesWithin(init, lo, hi) by {
        forall i | 0 <= i < |init| && init[i].Trade? ensures init[i].qty >= 0 && lo <= init[i].price <= hi {
          assert init[i] == tape[i];
        }
      }
      CostBounds(init, lo, hi);
      if e.Trade? {
        MulLe(lo, e.price, e.qty);
        MulLe(e.price, hi, e.qty);
        Distrib(lo, TradedQty(init), e.qty);
        Distrib(hi, TradedQty(init), e.qty);
      }
    }
  }

  /** The summary price lies within the range of the traded prices. */
  lemma SummaryWithinPrices(time: real, tape: seq<TapeEvent>, lo: int, hi: int)
    requires TradesWithin(tape, lo, hi)
    ensures var s := Summarise(time, tape); s.Some? ==> lo <= s.value.price <= hi
  {
    if |tape| > 0 && TradedQty(tape) > 0 {
      CostBounds(tape, lo, hi);
      DivBounds(TradeCost(tape), TradedQty(tape), lo);
      DivBounds(TradeCost(tape), TradedQty(tape), hi);
    }
  }

  /** With every trade for a single unit, as in BSE 1.x, the written
      summary and the corrected one agree. */
  lemma {:induction false} UnitTradesAgree(time: real, tape: seq<TapeEvent>)
    requires forall i :: 0 <= i < |tape| && tape[i].Trade? ==> tape[i].qty == 1
    ensures SummariseAsWritten(time, tape) == Summarise(time, tape)
    ensures PriceSum(tape) == TradeCost(tape)
  {
    if |tape| > 0 {
      var init := tape[..|tape| - 1];
      assert forall i :: 0 <= i < |init| && init[i].Trade? ==> init[i].qty == 1 by {
        forall i | 0 <= i < |init| && init[i].Trade? ensures init[i].qty == 1 {
          assert init[i] == tape[i];
        }
      }
      UnitTradesAgree(time, init);
    }
  }

  /** One trade of two units at 100: the written summary reports a price
      of 50, half of the only price traded. */
  lemma SummaryAsWrittenHalvesPrice(time: real, pool: string, seller: string, buyer: string)
    ensures
      var tape := [Trade(pool, time, 100, 2, seller, buyer)];
      && SummariseAsWritten(time, tape) == Some(TapeSummary(time, 50, 2))
      && Summarise(time, tape) == Some(TapeSummary(time, 100, 2))
  {
    var tape := [Trade(pool, time, 100, 2, seller, buyer)];
    assert tape[..0] == [];
    assert TradedQty(tape) == 2;
    assert PriceSum(tape) == 100;
    assert TradeCost(tape) == 200;
  }

  /** Book a pool's response: charge the fees in the messages addressed to
      the trader, write the events to the tape, and hand back the summary and
      the messages. A limit order that came to rest, or an order waiting for
      the open or the close, books nothing and hands back nothing. */
  function HandleResponse(x: Exchange, time: real, tid: string, resp: Response): (p: Processed)
    requires tid in Keys(x.traders)
  {
    match resp
    case Events(msgs, tape) =>
      var x1 := x.(traders := Put(x.traders, tid, Charged(Get(x.traders, tid).value, FeesFor(msgs, tid))));
      Processed(RecordEvents(x1, tape), Report(Summarise(time, tape), Some(msgs)))
    case _ => Processed(x, Report(None, None))
  }

  /** The response booking as written: the pending styles' response holds
      `None` for the messages, and iterating over it raises; the summary
      adds up prices. */
  function HandleResponseAsWritten(x: Exchange, time: real, tid: string, resp: Response): (r: Result<Processed>)
    requires tid in Keys(x.traders)
  {
    match resp
    case NullEvents => Err(Crash("TypeError: 'NoneType' object is not iterable"))
    case Events(msgs, tape) =>
      var p := HandleResponse(x, time, tid, resp);
      Ok(p.(report := p.report.(summary := SummariseAsWritten(time, tape))))
    case Silent => Ok(HandleResponse(x, time, tid, resp))
  }

  /** What booking a response does: only the booking trader's balance
      changes, by the fees addressed to them; the events are appended to
      the tape; and the messages and the summary are handed back. Any other
      response books nothing and hands back nothing. */
  lemma HandleResponseSpec(x: Exchange, time: real, tid: string, resp: Response)
    requires tid in Keys(x.traders)
    ensures
      var p := HandleResponse(x, time, tid, resp);
      && p.exchange.lit == x.lit && p.exchange.drk == x.drk && p.exchange.orderId == x.orderId
      && |p.exchange.tape| >= |x.tape| && p.exchange.tape[..|x.tape|] == x.tape
      && (!resp.Events? ==> p == Processed(x, Report(None, None)))
  {
    if resp.Events? {
      BookEvents(x, time, tid, resp.msgs, resp.tape);
      var y := HandleResponse(x, time, tid, resp).exchange;
      assert y.tape[..|x.tape|] == x.tape;
    }
  }

  lemma BookEvents(x: Exchange, time: real, tid: string, msgs: seq<ExchMsg>, tape: seq<TapeEvent>)
    requires tid in Keys(x.traders)
    ensures
      var p := HandleResponse(x, time, tid, Events(msgs, tape));
      && p.exchange == x.(traders := p.exchange.traders, tape := x.tape + tape, lastTrade := p.exchange.lastTrade)
      && Get(p.exchange.traders, tid) == Some(Charged(Get(x.traders, tid).value, FeesFor(msgs, tid)))
      && (forall k :: k != tid ==> Get(p.exchange.traders, k) == Get(x.traders, k))
      && p.report == Report(Summarise(time, tape), Some(msgs))
  {
    var rec' := Charged(Get(x.traders, tid).value, FeesFor(msgs, tid));
    var x1 := x.(traders := Put(x.traders, tid, rec'));
    var y := RecordEvents(x1, tape);
    assert HandleResponse(x, time, tid, Events(msgs, tape)) == Processed(y, Report(Summarise(time, tape), Some(msgs)));
    RecordEventsSpec(x1, tape);
    assert y.traders == Put(x.traders, tid, rec') && y.tape == x.tape + tape;
    assert y == x.(traders := y.traders, tape := x.tape + tape, lastTrade := y.lastTrade);
    ChargeOnly(x.traders, tid, rec');
  }

  /** Replacing one trader's record leaves every other record as it was. */
  lemma ChargeOnly(d: Ledger, tid: string, rec: TraderRecord)
    ensures Get(Put(d, tid, rec), tid) == Some(rec)
    ensures forall k :: k != tid ==> Get(Put(d, tid, rec), k) == Get(d, k)
  {
    forall k {
      GetPut(d, tid, rec, k);
    }
  }

  /** A pending-style order shows the difference: as written the booking
      raises, where the corrected one hands back nothing. */
  lemma PendingBookingCrashes(x: Exchange, time: real, tid: string)
    requires tid in Keys(x.traders)
    ensures HandleResponseAsWritten(x, time, tid, NullEvents).Err?
    ensures HandleResponse(x, time, tid, NullEvents) == Processed(x, Report(None, None))
  {
  }

  /** `process_order`: route the order, then book the pool's response. */
  function ProcessOrder(x: Exchange, time: real, order: Order): (r: Result<Processed>)
    ensures r.Ok? <==> Route(x, time, order).Ok?
  {
    var routed :- Route(x, time, order);
    RouteSpec(x, time, order);
    Ok(HandleResponse(routed.exchange, time, order.tid, routed.response))
  }

  /** What `process_order` keeps: the trader is registered, the order id
      advances by one for every order but a cancellation, the tape only
      grows, the pool the order was not routed to is untouched, and
      neither pool ever records a last transaction. */
  lemma ProcessOrderSpec(x: Exchange, time: real, order: Order)
    ensures
      var r := ProcessOrder(x, time, order);
      r.Ok? ==>
        var y := r.value.exchange;
        && order.tid in Keys(y.traders)
        && y.orderId == x.orderId + (if order.ostyle == Cancel then 0 else 1)
        && |y.tape| >= |x.tape| && y.tape[..|x.tape|] == x.tape
        && (ToLit(order) ==> y.drk == x.drk) && (!ToLit(order) ==> y.lit == x.lit)
        && y.lit.lastTrade == x.lit.lastTrade && y.drk.lastTrade == x.drk.lastTrade
  {
    var r := Route(x, time, order);
    if r.Ok? {
      var y := r.value.exchange;
      RouteSpec(x, time, order);
      HandleResponseSpec(y, time, order.tid, r.value.response);
      BookKeepsTraders(y, time, order.tid, r.value.response);
    }
  }

  lemma BookKeepsTraders(x: Exchange, time: real, tid: string, resp: Response)
    requires tid in Keys(x.traders)
    ensures tid in Keys(HandleResponse(x, time, tid, resp).exchange.traders)
  {
    if resp.Events? {
      BookEvents(x, time, tid, resp.msgs, resp.tape);
    }
  }

  /** `process_order` as written: as `ProcessOrder`, but booking the
      response as written. */
  function ProcessOrderAsWritten(x: Exchange, time: real, order: Order): (r: Result<Processed>)
    ensures r.Ok? ==> Route(x, time, order).Ok? && !Route(x, time, order).value.response.NullEvents?
    ensures r.Ok? && !Route(x, time, order).value.response.Events? ==> r == ProcessOrder(x, time, order)
  {
    var routed :- Route(x, time, order);
    RouteSpec(x, time, order);
    HandleResponseAsWritten(routed.exchange, time, order.tid, routed.response)
  }

  /** A supported style with a proper order type never fails, except that a
      cancellation needs its order to be in the pool; the broken styles
      always fail. */
  lemma ProcessOrderOutcome(x: Exchange, time: real, order: Order)
    ensures Supported(order.ostyle) && !order.otype.OtherType? ==> ProcessOrder(x, time, order).Ok?
    ensures Broken(order.ostyle) ==> ProcessOrder(x, time, order).Err?
    ensures order.ostyle == Cancel ==>
      (ProcessOrder(x, time, order).Ok?
       <==> !order.otype.OtherType? && order.orderid in Keys(OwnSide(PoolOf(x, order), order.otype).orders))
  {
  }

  /** A waiting order of a pending style crashes the exchange as written,
      in either pool, once its type is Bid or Ask. */
  lemma PendingOrderCrashes(x: Exchange, time: real, order: Order)
    requires AtOpen(order.ostyle) || AtClose(order.ostyle)
    requires !order.otype.OtherType?
    ensures ProcessOrderAsWritten(x, time, order).Err?
    ensures ProcessOrder(x, time, order).Ok?
  {
    var x1 := Register(x, time, order.tid);
    var pool := PoolOf(x1, order);
    var o := order.(orderid := x1.orderId);
    assert Dispatch(pool, time, o) == ProcessOrderPending(pool, o);
    var step := Dispatch(pool, time, o).value;
    assert Route(x, time, order) == Ok(Routed(WithPool(x1.(orderId := x1.orderId + 1), order, step.venue), NullEvents));
  }

  // ---------------------------------------------------------------------
  // Invariants over a session.

  /** Both pools have their sides the right way round and neither is
      crossed. */
  predicate Healthy(x: Exchange) {
    SidesOk(x.lit) && SidesOk(x.drk) && Uncrossed(x.lit) && Uncrossed(x.drk)
  }

  lemma DispatchKeepsUncrossed(pool: Venue, time: real, order: Order)
    requires order.ostyle != Cancel && order.ostyle != CancelAll
    requires SidesOk(pool) && Uncrossed(pool)
    ensures
      var r := Dispatch(pool, time, order);
      r.Ok? ==> SidesOk(r.value.venue) && Uncrossed(r.value.venue)
  {
    var s := order.ostyle;
    if s == Limit || s == GoodForDay {
      LimKeepsUncrossed(pool, time, order);
    } else if s == Market || s == FillOrKill || s == ImmediateOrCancel {
      TakeKeepsUncrossed(pool, time, order);
    } else if AtOpen(s) || AtClose(s) {
      PendingKeepsUncrossed(pool, order);
    }
  }

  lemma PendingKeepsUncrossed(pool: Venue, order: Order)
    requires SidesOk(pool) && Uncrossed(pool)
    ensures
      var r := ProcessOrderPending(pool, order);
      r.Ok? ==> SidesOk(r.value.venue) && Uncrossed(r.value.venue)
  {
    var r := ProcessOrderPending(pool, order);
    if r.Ok? {
      var t: BookSide := order.otype;
      assert Lob(OwnSide(r.value.venue, t)) == Lob(OwnSide(pool, t));
    }
  }

  /** No order leaves either pool crossed. */
  lemma ProcessOrderKeepsHealthy(x: Exchange, time: real, order: Order)
    requires Healthy(x)
    ensures var r := ProcessOrder(x, time, order); r.Ok? ==> Healthy(r.value.exchange)
  {
    var r := Route(x, time, order);
    if r.Ok? {
      RouteSpec(x, time, order);
      var y := r.value.exchange;
      var z := HandleResponse(y, time, order.tid, r.value.response).exchange;
      assert ProcessOrder(x, time, order).value.exchange == z;
      RouteKeepsHealthy(x, time, order);
      BookingKeepsPools(y, time, order.tid, r.value.response);
      SamePoolsHealthy(y, z);
    }
  }

  /** Booking a response touches neither pool nor the order id. */
  lemma BookingKeepsPools(x: Exchange, time: real, tid: string, resp: Response)
    requires tid in Keys(x.traders)
    ensures
      var y := HandleResponse(x, time, tid, resp).exchange;
      y.lit == x.lit && y.drk == x.drk && y.orderId == x.orderId
  {
    if resp.Events? {
      BookEvents(x, time, tid, resp.msgs, resp.tape);
    }
  }

  lemma SamePoolsHealthy(a: Exchange, b: Exchange)
    requires Healthy(a) && a.lit == b.lit && a.drk == b.drk
    ensures Healthy(b)
  {
  }

  lemma HealthyWithPool(y: Exchange, order: Order, v: Venue)
    requires SidesOk(v) && Uncrossed(v)
    requires ToLit(order) ==> SidesOk(y.drk) && Uncrossed(y.drk)
    requires !ToLit(order) ==> SidesOk(y.lit) && Uncrossed(y.lit)
    ensures Healthy(WithPool(y, order, v))
  {
  }

  lemma RouteKeepsHealthy(x: Exchange, time: real, order: Order)
    requires Healthy(x)
    ensures var r := Route(x, time, order); r.Ok? ==> Healthy(r.value.exchange)
  {
    if order.ostyle == Cancel {
      CancelKeepsHealthy(x, time, order);
    } else if order.ostyle != CancelAll {
      DispatchedKeepsHealthy(x, time, order);
    }
  }

  lemma CancelKeepsHealthy(x: Exchange, time: real, order: Order)
    requires Healthy(x) && order.ostyle == Cancel
    ensures var r := Route(x, time, order); r.Ok? ==> Healthy(r.value.exchange)
  {
    var x1 := Register(x, time, order.tid);
    var pool := PoolOf(x1, order);
    var can := ProcessOrderCan(pool, time, order);
    if can.Ok? {
      assert Route(x, time, order) == Ok(Routed(WithPool(x1, order, can.value.venue), can.value.response));
      CanKeepsUncrossed(pool, time, order);
      HealthyWithPool(x1, order, can.value.venue);
    }
  }

  lemma DispatchedKeepsHealthy(x: Exchange, time: real, order: Order)
    requires Healthy(x) && order.ostyle != Cancel && order.ostyle != CancelAll
    ensures var r := Route(x, time, order); r.Ok? ==> Healthy(r.value.exchange)
  {
    var x1 := Register(x, time, order.tid);
    var pool := PoolOf(x1, order);
    var o := order.(orderid := x1.orderId);
    var d := Dispatch(pool, time, o);
    if d.Ok? {
      var x2 := x1.(orderId := x1.orderId + 1);
      assert Route(x, time, order) == Ok(Routed(WithPool(x2, order, d.value.venue), d.value.response));
      DispatchKeepsUncrossed(pool, time, o);
      HealthyWithPool(x2, order, d.value.venue);
    }
  }

  /** Every live order of a side has an id below `n`. */
  ghost predicate IdsBelow(b: HalfBook, n: int) {
    forall k :: k in Keys(b.orders) ==> k < n
  }

  ghost predicate PoolIdsBelow(v: Venue, n: int) {
    IdsBelow(v.bids, n) && IdsBelow(v.asks, n)
  }

  /** The next order id is unused: every live order in either pool has a
      smaller one. */
  ghost predicate Fresh(x: Exchange) {
    PoolIdsBelow(x.lit, x.orderId) && PoolIdsBelow(x.drk, x.orderId)
  }

  lemma RetainedIdsBelow(b: HalfBook, b': HalfBook, n: int)
    requires Retains(b.orders, b'.orders) && IdsBelow(b, n)
    ensures IdsBelow(b', n)
  {
    forall k | k in Keys(b'.orders) ensures k < n {
      assert Get(b'.orders, k).Some?;
    }
  }

  lemma TakeIdsBelow(v: Venue, time: real, order: Order, n: int)
    requires PoolIdsBelow(v, n)
    ensures var r := ProcessOrderTake(v, time, order); r.Ok? ==> PoolIdsBelow(r.value.venue, n)
  {
    var r := ProcessOrderTake(v, time, order);
    if r.Ok? {
      var t := Opposite(order.otype);
      TakeRetains(OwnSide(v, t), time, order, v.id);
      RetainedIdsBelow(OwnSide(v, t), OwnSide(r.value.venue, t), n);
    }
  }

  lemma CanIdsBelow(v: Venue, time: real, order: Order, n: int)
    requires PoolIdsBelow(v, n)
    ensures var r := ProcessOrderCan(v, time, order); r.Ok? ==> PoolIdsBelow(r.value.venue, n)
  {
    var r := ProcessOrderCan(v, time, order);
    if r.Ok? {
      var t: BookSide := order.otype;
      RemoveRetains(OwnSide(v, t).orders, order.orderid);
      RetainedIdsBelow(OwnSide(v, t), OwnSide(r.value.venue, t), n);
    }
  }

  lemma RestIdsBelow(v: Venue, order: Order)
    requires PoolIdsBelow(v, order.orderid)
    ensures PoolIdsBelow(AddLimOrder(v, order), order.orderid + 1)
  {
    var t: BookSide := if order.otype == Bid then Bid else Ask;
    var b' := OwnSide(AddLimOrder(v, order), t);
    forall k | k in Keys(b'.orders) ensures k < order.orderid + 1 {
      if k != order.orderid {
        assert Get(b'.orders, k).Some?;
      }
    }
  }

  lemma DispatchIdsBelow(pool: Venue, time: real, order: Order)
    requires order.ostyle != Cancel && order.ostyle != CancelAll
    requires PoolIdsBelow(pool, order.orderid)
    ensures var r := Dispatch(pool, time, order); r.Ok? ==> PoolIdsBelow(r.value.venue, order.orderid + 1)
  {
    if order.ostyle == Limit || order.ostyle == GoodForDay {
      if !order.otype.OtherType? {
        if Crosses(pool, order) {
          TakeIdsBelow(pool, time, order.(ostyle := ImmediateOrCancel), order.orderid);
        } else {
          RestIdsBelow(pool, order);
        }
      }
    } else if order.ostyle == Market || order.ostyle == FillOrKill || order.ostyle == ImmediateOrCancel {
      TakeIdsBelow(pool, time, order, order.orderid);
    }
  }

  /** Order ids are never reused: the id each new order is given is not
      held by any live order, and stays unused afterwards. */
  lemma ProcessOrderKeepsFresh(x: Exchange, time: real, order: Order)
    requires Fresh(x)
    ensures var r := ProcessOrder(x, time, order); r.Ok? ==> Fresh(r.value.exchange)
  {
    var r := Route(x, time, order);
    if r.Ok? {
      RouteSpec(x, time, order);
      var y := r.value.exchange;
      var z := HandleResponse(y, time, order.tid, r.value.response).exchange;
      assert ProcessOrder(x, time, order).value.exchange == z;
      RouteKeepsFresh(x, time, order);
      BookingKeepsPools(y, time, order.tid, r.value.response);
    }
  }

  lemma RouteKeepsFresh(x: Exchange, time: real, order: Order)
    requires Fresh(x)
    ensures var r := Route(x, time, order); r.Ok? ==> Fresh(r.value.exchange)
  {
    if order.ostyle == Cancel {
      CancelKeepsFresh(x, time, order);
    } else if order.ostyle != CancelAll {
      DispatchedKeepsFresh(x, time, order);
    }
  }

  lemma CancelKeepsFresh(x: Exchange, time: real, order: Order)
    requires Fresh(x) && order.ostyle == Cancel
    ensures var r := Route(x, time, order); r.Ok? ==> Fresh(r.value.exchange)
  {
    var x1 := Register(x, time, order.tid);
    var pool := PoolOf(x1, order);
    var can := ProcessOrderCan(pool, time, order);
    if can.Ok? {
      assert Route(x, time, order) == Ok(Routed(WithPool(x1, order, can.value.venue), can.value.response));
      CanIdsBelow(pool, time, order, x.orderId);
      FreshWithPool(x1, order, can.value.venue);
    }
  }

  lemma DispatchedKeepsFresh(x: Exchange, time: real, order: Order)
    requires Fresh(x) && order.ostyle != Cancel && order.ostyle != CancelAll
    ensures var r := Route(x, time, order); r.Ok? ==> Fresh(r.value.exchange)
  {
    var x1 := Register(x, time, order.tid);
    var pool := PoolOf(x1, order);
    var other := if ToLit(order) then x1.drk else x1.lit;
    var o := order.(orderid := x1.orderId);
    var d := Dispatch(pool, time, o);
    if d.Ok? {
      var x2 := x1.(orderId := x1.orderId + 1);
      assert Route(x, time, order) == Ok(Routed(WithPool(x2, order, d.value.venue), d.value.response));
      DispatchIdsBelow(pool, time, o);
      PoolIdsBelowMono(other, x.orderId);
      FreshWithPool(x2, order, d.value.venue);
    }
  }

  lemma PoolIdsBelowMono(v: Venue, n: int)
    requires PoolIdsBelow(v, n)
    ensures PoolIdsBelow(v, n + 1)
  {
  }

  lemma FreshWithPool(y: Exchange, order: Order, v: Venue)
    requires PoolIdsBelow(v, y.orderId)
    requires PoolIdsBelow(if ToLit(order) then y.drk else y.lit, y.orderId)
    ensures Fresh(WithPool(y, order, v))
  {
  }

  /** A session: each (time, order) pair in turn, stopping at the first
      failure. */
  function Run(x: Exchange, orders: seq<(real, Order)>): Result<Exchange>
    decreases |orders|
  {
    if |orders| == 0 then Ok(x)
    else
      match ProcessOrder(x, orders[0].0, orders[0].1)
      case Err(f) => Err(f)
      case Ok(p) => Run(p.exchange, orders[1..])
  }

  /** Over a whole session the pools stay uncrossed, order ids stay fresh,
      and neither pool ever records a last transaction. */
  lemma {:induction false} RunKeeps(x: Exchange, orders: seq<(real, Order)>)
    requires Healthy(x) && Fresh(x)
    ensures
      var r := Run(x, orders);
      r.Ok? ==>
        && Healthy(r.value) && Fresh(r.value)
        && r.value.lit.lastTrade == x.lit.lastTrade && r.value.drk.lastTrade == x.drk.lastTrade
    decreases |orders|
  {
    if |orders| > 0 {
      var p := ProcessOrder(x, orders[0].0, orders[0].1);
      if p.Ok? {
        ProcessOrderKeepsHealthy(x, orders[0].0, orders[0].1);
        ProcessOrderKeepsFresh(x, orders[0].0, orders[0].1);
        ProcessOrderSpec(x, orders[0].0, orders[0].1);
        RunKeeps(p.value.exchange, orders[1..]);
      }
    }
  }

  /** A new exchange satisfies the session invariants. */
  lemma NewExchangeHealthy(eid: string)
    ensures Healthy(NewExchange(eid)) && Fresh(NewExchange(eid))
  {
    var x := NewExchange(eid);
    assert |Lob(x.lit.bids)| == 0 && |Lob(x.lit.asks)| == 0;
    assert |Lob(x.drk.bids)| == 0 && |Lob(x.drk.asks)| == 0;
  }

  // ---------------------------------------------------------------------
  // publish_lob.

  /** The published view of one side of the lit pool. */
  datatype SideView = SideView(bestP: Option<int>, worstP: int, n: int, lob: seq<PriceQty>)

  /** Everything `publish_lob` returns. */
  datatype PublicData = PublicData(
    time: real,
    bids: SideView,
    asks: SideView,
    last: Option<LastTrade>,
    tape: seq<TapeEvent>,
    midprice: Option<real>,
    microprice: Option<int>)

  lemma AnonEmpty(b: HalfBook)
    ensures |LobAnon(b)| == 0 <==> |b.orders| == 0
  {
    BuildLobFacts(b.side, Values(b.orders));
  }

  function ViewOf(b: HalfBook): SideView {
    AnonEmpty(b);
    SideView(if |b.orders| > 0 then Some(LobAnon(b)[0].price) else None, b.worstPrice, |b.orders|, LobAnon(b))
  }

  /** Python's `s[-d:]`. */
  function PyTail<T>(s: seq<T>, d: int): seq<T> {
    if d > 0 then s[(if d < |s| then |s| - d else 0)..]
    else if d == 0 then s
    else s[(if -d < |s| then -d else |s|)..]
  }

  /** For a positive depth the published tape is the last `d` events (all
      of them when there are fewer); a depth of zero publishes the whole
      tape; a negative depth drops the first `-d` events. */
  lemma PyTailSpec<T>(s: seq<T>, d: int)
    ensures d > 0 ==> |PyTail(s, d)| == (if d < |s| then d else |s|)
    ensures d > 0 ==> PyTail(s, d) == s[|s| - |PyTail(s, d)|..]
    ensures d == 0 ==> PyTail(s, d) == s
    ensures d < 0 ==> |PyTail(s, d)| == (if -d < |s| then |s| + d else 0)
    ensures d < 0 && -d <= |s| ==> s == s[..-d] + PyTail(s, d)
  {
  }

  function PublishWith(x: Exchange, time: real, depth: Option<int>, last: Option<LastTrade>): PublicData {
    var bids := ViewOf(x.lit.bids);
    var asks := ViewOf(x.lit.asks);
    AnonEmpty(x.lit.bids);
    AnonEmpty(x.lit.asks);
    var both := bids.n > 0 && asks.n > 0;
    PublicData(
      time, bids, asks, last,
      if depth.None? then x.tape else PyTail(x.tape, depth.value),
      if both then Midprice(bids.bestP.value, Some(bids.lob[0].qty), asks.bestP.value, Some(asks.lob[0].qty)) else None,
      if both then Microprice(bids.bestP.value, Some(bids.lob[0].qty), asks.bestP.value, Some(asks.lob[0].qty)) else None)
  }

  /** `publish_lob` with the last transaction taken from the exchange,
      where `tape_update` records it. */
  function PublishLob(x: Exchange, time: real, depth: Option<int>): PublicData {
    PublishWith(x, time, depth, x.lastTrade)
  }

  /** `publish_lob` as written: the last transaction is read from the lit
      pool, which never records one. */
  function PublishLobAsWritten(x: Exchange, time: real, depth: Option<int>): PublicData {
    PublishWith(x, time, depth, x.lit.lastTrade)
  }

  /** The published best bid is the highest price of any live bid in the
      lit pool, and the best ask the lowest price of any live ask. */
  lemma PublishedBest(x: Exchange, time: real, depth: Option<int>)
    requires SidesOk(x.lit)
    ensures
      var p := PublishLob(x, time, depth);
      && (p.bids.bestP.Some? <==> |x.lit.bids.orders| > 0)
      && (p.asks.bestP.Some? <==> |x.lit.asks.orders| > 0)
      && (p.bids.bestP.Some? ==>
            (forall j :: 0 <= j < |x.lit.bids.orders| ==> x.lit.bids.orders[j].1.price <= p.bids.bestP.value)
            && (exists j :: 0 <= j < |x.lit.bids.orders| && x.lit.bids.orders[j].1.price == p.bids.bestP.value))
      && (p.asks.bestP.Some? ==>
            (forall j :: 0 <= j < |x.lit.asks.orders| ==> x.lit.asks.orders[j].1.price >= p.asks.bestP.value)
            && (exists j :: 0 <= j < |x.lit.asks.orders| && x.lit.asks.orders[j].1.price == p.asks.bestP.value))
  {
    AnonEmpty(x.lit.bids);
    AnonEmpty(x.lit.asks);
    if |x.lit.bids.orders| > 0 {
      forall j | 0 <= j < |x.lit.bids.orders| ensures x.lit.bids.orders[j].1.price <= Lob(x.lit.bids)[0].price {
        BestBoundsOrders(x.lit.bids, j);
      }
      var i := BestOrder(x.lit.bids);
    }
    if |x.lit.asks.orders| > 0 {
      forall j | 0 <= j < |x.lit.asks.orders| ensures x.lit.asks.orders[j].1.price >= Lob(x.lit.asks)[0].price {
        BestBoundsOrders(x.lit.asks, j);
      }
      var i := BestOrder(x.lit.asks);
    }
  }

  /** With both sides of an uncrossed lit pool quoted, the published
      midprice and microprice lie between the best bid and the best ask. */
  lemma PublishedPricesInSpread(x: Exchange, time: real, depth: Option<int>)
    requires SidesOk(x.lit) && Uncrossed(x.lit)
    requires |LobAnon(x.lit.bids)| > 0 && |LobAnon(x.lit.asks)| > 0
    requires LobAnon(x.lit.bids)[0].qty > 0 && LobAnon(x.lit.asks)[0].qty > 0
    ensures
      var p := PublishLob(x, time, depth);
      var bid := LobAnon(x.lit.bids)[0].price;
      var ask := LobAnon(x.lit.asks)[0].price;
      && p.midprice.Some? && bid as real <= p.midprice.value <= ask as real
      && p.microprice.Some? && bid <= p.microprice.value <= ask
  {
    AnonEmpty(x.lit.bids);
    AnonEmpty(x.lit.asks);
    var bid := LobAnon(x.lit.bids)[0];
    var ask := LobAnon(x.lit.asks)[0];
    MidpriceHalfway(bid.price, bid.qty, ask.price, ask.qty);
    MicropriceBetween(bid.price, bid.qty, ask.price, ask.qty);
  }

  /** Each view publishes its own record of the last transaction. */
  lemma PublishedLast(x: Exchange, time: real, depth: Option<int>)
    ensures PublishLob(x, time, depth).last == x.lastTrade
    ensures PublishLobAsWritten(x, time, depth).last == x.lit.lastTrade
  {
  }

  /** Once a response with a trade has been booked, the corrected view
      publishes the latest trade, while the view as written still shows
      the lit pool's empty record. */
  lemma LastTradePublished(x: Exchange, time: real, tid: string, msgs: seq<ExchMsg>, tape: seq<TapeEvent>,
                           depth: Option<int>)
    requires tid in Keys(x.traders) && x.lit.lastTrade.None?
    requires LatestTrade(tape).Some?
    ensures
      var y := HandleResponse(x, time, tid, Events(msgs, tape)).exchange;
      && PublishLob(y, time, depth).last == LatestTrade(tape)
      && PublishLobAsWritten(y, time, depth).last.None?
  {
    var y := HandleResponse(x, time, tid, Events(msgs, tape)).exchange;
    BookedLastTrade(x, time, tid, msgs, tape);
    PublishedLast(y, time, depth);
  }

  /** Booking a response records its latest trade on the exchange and
      leaves the lit pool's own record alone. */
  lemma BookedLastTrade(x: Exchange, time: real, tid: string, msgs: seq<ExchMsg>, tape: seq<TapeEvent>)
    requires tid in Keys(x.traders)
    requires LatestTrade(tape).Some?
    ensures
      var y := HandleResponse(x, time, tid, Events(msgs, tape)).exchange;
      y.lastTrade == LatestTrade(tape) && y.lit == x.lit
  {
    var rec := Get(x.traders, tid).value;
    var x1 := x.(traders := Put(x.traders, tid, Charged(rec, FeesFor(msgs, tid))));
    RecordEventsSpec(x1, tape);
  }

  /** In every session started on a new exchange the view as written never
      publishes a last transaction. */
  lemma LitNeverRecords(eid: string, orders: seq<(real, Order)>, time: real, depth: Option<int>)
    ensures
      var r := Run(NewExchange(eid), orders);
      r.Ok? ==> PublishLobAsWritten(r.value, time, depth).last.None?
  {
    NewExchangeHealthy(eid);
    RunKeeps(NewExchange(eid), orders);
  }
}
