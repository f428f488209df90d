/** A BSE2 `Orderbook`: the bid side and the ask side of one trading pool
    (the exchange runs a lit pool and a dark pool of this kind) and the
    order-processing methods the exchange calls on it. */
module Bse2Venue {
  import opened Wrappers
  import opened Dicts
  import opened Messages
  import opened Bse2Lob
  import opened Bse2Half

  /** `bse_sys_minprice` and `bse_sys_maxprice`: the worst prices of the bid
      side and of the ask side. */
  const MinPrice: int := 1
  const MaxPrice: int := 200

  /** Time, price and quantity of the most recent transaction. */
  datatype LastTrade = LastTrade(time: real, price: int, qty: int)

  /** The state of an `Orderbook`: its name (used as the pool id on tape
      events), its two sides, its own tape, and its record of the last
      transaction. */
  datatype Venue = Venue(
    id: string,
    bids: HalfBook,
    asks: HalfBook,
    tape: seq<TapeEvent>,
    lastTrade: Option<LastTrade>)

  predicate SidesOk(v: Venue) {
    v.bids.side == Bid && v.asks.side == Ask
  }

  /** A new pool: both sides empty, the bid side's worst price the system
      minimum and the ask side's the system maximum, no transaction yet. */
  function NewVenue(id: string): (v: Venue)
    ensures v.id == id && SidesOk(v)
    ensures v.bids.worstPrice == MinPrice && v.asks.worstPrice == MaxPrice
    ensures |Lob(v.bids)| == 0 && |Lob(v.asks)| == 0
    ensures v.tape == [] && v.lastTrade.None?
  {
    Venue(id, NewHalfBook(Bid, MinPrice), NewHalfBook(Ask, MaxPrice), [], None)
  }

  /** What an `Orderbook` method hands back to the exchange: nothing at all
      (a limit order that came to rest), the messages for the traders and the
      events for the tape, or the pair with both entries `None` (the styles
      that wait for the open or the close). */
  datatype Response = Silent | Events(msgs: seq<ExchMsg>, tape: seq<TapeEvent>) | NullEvents

  datatype Step = Step(venue: Venue, response: Response)

  /** The side an order of type `t` rests on, and the side it trades with. */
  function OwnSide(v: Venue, t: BookSide): HalfBook {
    if t == Bid then v.bids else v.asks
  }

  function Opposite(t: BookSide): BookSide {
    if t == Bid then Ask else Bid
  }

  function WithSide(v: Venue, t: BookSide, b: HalfBook): Venue {
    if t == Bid then v.(bids := b) else v.(asks := b)
  }

  /** `v'` differs from `v` in the contents of side `t` at most. */
  predicate OnlySide(v: Venue, v': Venue, t: BookSide) {
    v' == WithSide(v, t, OwnSide(v', t)) && OwnSide(v', t).side == OwnSide(v, t).side
  }

  // ---------------------------------------------------------------------
  // Reference prices.

  /** Python 2 compares `None > 0` as false, so an absent quantity is never
      positive. */
  predicate Positive(q: Option<int>) {
    q.Some? && q.value > 0
  }

  /** `midprice`: with only a bid, the bid price; with only an ask, the ask
      price; with both, their mean (a float); otherwise none. */
  function Midprice(bidP: int, bidQ: Option<int>, askP: int, askQ: Option<int>): (m: Option<real>)
    ensures m.Some? <==> (Positive(bidQ) && (askQ.None? || Positive(askQ))) || (Positive(askQ) && bidQ.None?)
  {
    if Positive(bidQ) && askQ.None? then Some(bidP as real)
    else if Positive(askQ) && bidQ.None? then Some(askP as real)
    else if Positive(bidQ) && Positive(askQ) then Some((bidP + askP) as real / 2.0)
    else None
  }

  /** With both sides quoted the midprice lies halfway between them. */
  lemma MidpriceHalfway(bidP: int, bidQ: int, askP: int, askQ: int)
    requires bidQ > 0 && askQ > 0 && bidP <= askP
    ensures
      var m := Midprice(bidP, Some(bidQ), askP, Some(askQ));
      && m.Some?
      && bidP as real <= m.value <= askP as real
      && m.value - bidP as real == askP as real - m.value
  {
  }

  /** `microprice`: the two best prices weighted by the opposite side's
      quantity, in integer (floor) division; none unless both quantities
      are positive. */
  function Microprice(bidP: int, bidQ: Option<int>, askP: int, askQ: Option<int>): (m: Option<int>)
    ensures m.Some? <==> Positive(bidQ) && Positive(askQ)
  {
    if Positive(bidQ) && Positive(askQ) then
      Some((bidP * askQ.value + askP * bidQ.value) / (bidQ.value + askQ.value))
    else None
  }

  lemma MulLe(a: int, b: int, c: int)
    requires a <= b && c >= 0
    ensures a * c <= b * c
  {
  }

  /** `n / d` is the largest `k` with `k * d <= n`. */
  lemma DivBounds(n: int, d: int, k: int)
    requires d > 0
    ensures k * d <= n ==> k <= n / d
    ensures n < (k + 1) * d ==> n / d <= k
  {
    var q := n / d;
    assert n == q * d + n % d && 0 <= n % d < d;
    if k * d <= n && q < k {
      MulLe(q + 1, k, d);
    }
    if n < (k + 1) * d && q > k {
      MulLe(k + 1, q, d);
    }
  }

  /** The microprice of an uncrossed quote lies between the bid and the
      ask. */
  lemma MicropriceBetween(bidP: int, bidQ: int, askP: int, askQ: int)
    requires bidQ > 0 && askQ > 0 && bidP <= askP
    ensures
      var m := Microprice(bidP, Some(bidQ), askP, Some(askQ));
      m.Some? && bidP <= m.value <= askP
  {
    var n := bidP * askQ + askP * bidQ;
    var t := bidQ + askQ;
    MulLe(bidP, askP, bidQ);
    MulLe(bidP, askP, askQ);
    assert bidP * t <= n by {
      assert bidP * t == bidP * askQ + bidP * bidQ;
    }
    assert n < (askP + 1) * t by {
      assert (askP + 1) * t == askP * askQ + askP * bidQ + t;
    }
    DivBounds(n, t, bidP);
    DivBounds(n, t, askP);
  }

  /** With equal quantities on both sides the microprice is the midprice
      rounded down. */
  lemma MicropriceEvenQueues(bidP: int, askP: int, q: int)
    requires q > 0
    ensures Microprice(bidP, Some(q), askP, Some(q)) == Some((bidP + askP) / 2)
  {
    var s := bidP + askP;
    var h := s / 2;
    assert s == 2 * h + s % 2;
    var n := bidP * q + askP * q;
    assert n == s * q;
    assert n == h * (2 * q) + (s % 2) * q;
    assert 0 <= (s % 2) * q < 2 * q;
    DivBounds(n, 2 * q, h);
  }

  // ---------------------------------------------------------------------
  // The best price of a side.

  /** The best level's price is the price of a stored order. */
  lemma BestOrder(b: HalfBook) returns (i: nat)
    requires |Lob(b)| > 0
    ensures i < |b.orders| && b.orders[i].1.price == Lob(b)[0].price
  {
    var vals := Values(b.orders);
    BuildLobFacts(b.side, vals);
    LobQueuesNonEmpty(b);
    FlattenFront(Lob(b));
    var pe := Flatten(Lob(b))[0];
    assert pe in multiset(PricedEntries(vals));
    i :| 0 <= i < |vals| && PricedEntries(vals)[i] == pe;
  }

  /** No stored order is priced better than the best level. */
  lemma BestBoundsOrders(b: HalfBook, j: nat)
    requires j < |b.orders|
    ensures |Lob(b)| > 0 && EqualOrBetter(b.side, Lob(b)[0].price, b.orders[j].1.price)
  {
    var vals := Values(b.orders);
    BuildLobFacts(b.side, vals);
    var pe := PricedEntries(vals)[j];
    assert pe in multiset(Flatten(Lob(b)));
    var l := LevelOf(Lob(b), pe);
    BestFirstPairwise(b.side, Lob(b));
    if l > 0 {
      assert Better(b.side, Lob(b)[0].price, Lob(b)[l].price);
    }
  }

  /** After `book_add` every stored order is the new one or an old one. */
  lemma AddedOrOld(b: HalfBook, o: Order, i: nat) returns (j: nat)
    requires i < |BookAdd(b, o).orders|
    ensures BookAdd(b, o).orders[i].1 == o || (j < |b.orders| && BookAdd(b, o).orders[i].1 == b.orders[j].1)
  {
    var e := BookAdd(b, o).orders[i];
    assert BookAdd(b, o).orders == Put(b.orders, o.orderid, o);
    PutEntries(b.orders, o.orderid, o, e);
    if e != (o.orderid, o) {
      j :| 0 <= j < |b.orders| && b.orders[j] == e;
    } else {
      j := 0;
    }
  }

  /** After `book_add` the best price is the new order's price or one no
      better than the old best. */
  lemma BestAfterAdd(b: HalfBook, o: Order)
    ensures |Lob(BookAdd(b, o))| > 0
    ensures
      var p := Lob(BookAdd(b, o))[0].price;
      p == o.price || (|Lob(b)| > 0 && EqualOrBetter(b.side, Lob(b)[0].price, p))
  {
    var b' := BookAdd(b, o);
    BestBoundsOrders(b', 0);
    var i := BestOrder(b');
    var j := AddedOrOld(b, o, i);
    if b'.orders[i].1 != o {
      BestBoundsOrders(b, j);
    }
  }

  // ---------------------------------------------------------------------
  // The order-processing methods.

  /** `add_lim_order`: a bid goes into the bid side and any other order into
      the ask side; that side's LOB is then non-empty, so reading its best
      price cannot fail. */
  function AddLimOrder(v: Venue, order: Order): (r: Venue)
    ensures var t: BookSide := if order.otype == Bid then Bid else Ask;
      && OnlySide(v, r, t)
      && Get(OwnSide(r, t).orders, order.orderid) == Some(order)
      && (forall k :: k != order.orderid ==> Get(OwnSide(r, t).orders, k) == Get(OwnSide(v, t).orders, k))
      && |Lob(OwnSide(r, t))| > 0
  {
    BestAfterAdd(v.bids, order);
    BestAfterAdd(v.asks, order);
    if order.otype == Bid then v.(bids := BookAdd(v.bids, order))
    else v.(asks := BookAdd(v.asks, order))
  }

  /** `process_order_CAN`: cancel the order on its own side. An order type
      other than Bid or Ask, or an order id the side does not hold, stops
      the program. */
  function ProcessOrderCan(v: Venue, time: real, order: Order): (r: Result<Step>)
    ensures r.Ok? <==> !order.otype.OtherType? && order.orderid in Keys(OwnSide(v, order.otype).orders)
    ensures r.Err? ==> r.failure.Exit?
    ensures r.Ok? ==>
      var s := OwnSide(r.value.venue, order.otype);
      && OnlySide(v, r.value.venue, order.otype)
      && Get(s.orders, order.orderid) == None
      && (forall k :: k != order.orderid ==> Get(s.orders, k) == Get(OwnSide(v, order.otype).orders, k))
      && r.value.response == Events([ExchMsg(order.tid, order.orderid, Can, [], None, 0, 0)],
                                    [Cancelled(v.id, time, order.orderid, OwnSide(v, order.otype).side,
                                               Get(OwnSide(v, order.otype).orders, order.orderid).value.qty)])
  {
    match order.otype
    case OtherType(_) => Err(Exit("process_order_CAN() given neither Bid nor Ask"))
    case _ =>
      var t: BookSide := order.otype;
      var out :- BookCan(OwnSide(v, t), time, order, v.id);
      Ok(Step(WithSide(v, t, out.book), Events(out.msgs, out.tape)))
  }

  /** `process_order_take`: a bid takes from the ask side and an ask from
      the bid side; any other order type stops the program. */
  function ProcessOrderTake(v: Venue, time: real, order: Order): (r: Result<Step>)
    ensures r.Err? <==> order.otype.OtherType?
    ensures r.Err? ==> r.failure.Exit?
    ensures r.Ok? ==>
      && OnlySide(v, r.value.venue, Opposite(order.otype))
      && r.value.response.Events?
  {
    match order.otype
    case OtherType(_) => Err(Exit("process_order_take() given neither Bid nor Ask"))
    case _ =>
      var t := Opposite(order.otype);
      var out := BookTake(OwnSide(v, t), time, order, v.id).value;
      Ok(Step(WithSide(v, t, out.book), Events(out.msgs, out.tape)))
  }

  /** A limit order crosses the spread when it is a bid priced at or above
      the best ask, or an ask priced at or below the best bid. */
  predicate Crosses(v: Venue, order: Order) {
    match order.otype
    case Bid => |Lob(v.asks)| > 0 && order.price >= Lob(v.asks)[0].price
    case Ask => |Lob(v.bids)| > 0 && order.price <= Lob(v.bids)[0].price
    case OtherType(_) => false
  }

  /** `process_order_LIM`: a limit order that crosses the spread is turned
      into an IOC order and takes from the other side; one that does not is
      added to its own side and no response is returned. */
  function ProcessOrderLim(v: Venue, time: real, order: Order): (r: Result<Step>)
    ensures r.Err? <==> order.otype.OtherType?
    ensures r.Err? ==> r.failure.Exit?
    ensures r.Ok? ==> (r.value.response.Silent? <==> !Crosses(v, order))
    ensures r.Ok? ==> OnlySide(v, r.value.venue, if Crosses(v, order) then Opposite(order.otype) else order.otype)
  {
    match order.otype
    case OtherType(_) => Err(Exit("process_order_LIM() given neither Bid nor Ask"))
    case _ =>
      if Crosses(v, order) then ProcessOrderTake(v, time, order.(ostyle := ImmediateOrCancel))
      else Ok(Step(AddLimOrder(v, order), Silent))
  }

  /** The best bid is strictly below the best ask whenever both exist. */
  predicate Uncrossed(v: Venue) {
    |Lob(v.bids)| > 0 && |Lob(v.asks)| > 0 ==> Lob(v.bids)[0].price < Lob(v.asks)[0].price
  }

  /** A limit order that does not cross rests on its own side, under its
      order id, and leaves the book uncrossed. */
  lemma LimRests(v: Venue, time: real, order: Order)
    requires SidesOk(v) && Uncrossed(v)
    requires !order.otype.OtherType? && !Crosses(v, order)
    ensures
      var r := ProcessOrderLim(v, time, order);
      && r.Ok? && r.value.response == Silent
      && OnlySide(v, r.value.venue, order.otype)
      && Get(OwnSide(r.value.venue, order.otype).orders, order.orderid) == Some(order)
      && Uncrossed(r.value.venue)
  {
    BestAfterAdd(OwnSide(v, order.otype), order);
  }

  /** A crossing limit order never rests: its own side is untouched, every
      trade is at its limit price or better, and its last message reports
      what was filled. */
  lemma LimCrossesTakes(v: Venue, time: real, order: Order)
    requires SidesOk(v) && order.qty > 0
    requires !order.otype.OtherType? && Crosses(v, order)
    ensures
      var r := ProcessOrderLim(v, time, order);
      && r.Ok? && r.value.response.Events?
      && OwnSide(r.value.venue, order.otype) == OwnSide(v, order.otype)
      && (forall i :: 0 <= i < |r.value.response.tape| ==>
            var e := r.value.response.tape[i];
            e.Trade? && (if order.otype == Bid then e.price <= order.price else e.price >= order.price))
      && ReportsFill(order.(ostyle := ImmediateOrCancel), r.value.response.msgs, r.value.response.tape)
  {
    var ioc := order.(ostyle := ImmediateOrCancel);
    var t := Opposite(order.otype);
    TakeIocWithinLimit(OwnSide(v, t), time, ioc, v.id);
    TakeConserves(OwnSide(v, t), time, ioc, v.id);
  }

  /** Styles queued for the market open and for the market close. */
  predicate AtOpen(s: Style) {
    s == LimitOnOpen || s == MarketOnOpen
  }

  predicate AtClose(s: Style) {
    s == LimitOnClose || s == MarketOnClose
  }

  /** `process_order_pending`: LOO and MOO orders join their side's
      on-open list, LOC and MOC orders its on-close list; nothing else
      changes and both entries of the response are `None`. Any other style
      or order type stops the program. */
  function ProcessOrderPending(v: Venue, order: Order): (r: Result<Step>)
    ensures r.Ok? <==> (AtOpen(order.ostyle) || AtClose(order.ostyle)) && !order.otype.OtherType?
    ensures r.Err? ==> r.failure.Exit?
    ensures r.Ok? ==>
      var s0 := OwnSide(v, order.otype);
      var s := OwnSide(r.value.venue, order.otype);
      && r.value.response == NullEvents
      && OnlySide(v, r.value.venue, order.otype)
      && s.orders == s0.orders && s.resting == s0.resting
      && (AtOpen(order.ostyle) ==> s.onOpen == s0.onOpen + [order] && s.onClose == s0.onClose)
      && (AtClose(order.ostyle) ==> s.onClose == s0.onClose + [order] && s.onOpen == s0.onOpen)
  {
    if AtOpen(order.ostyle) then
      match order.otype
      case OtherType(_) => Err(Exit("process_order_pending() LOO/MOO given neither Bid nor Ask"))
      case _ =>
        var s := OwnSide(v, order.otype);
        Ok(Step(WithSide(v, order.otype, s.(onOpen := s.onOpen + [order])), NullEvents))
    else if AtClose(order.ostyle) then
      match order.otype
      case OtherType(_) => Err(Exit("process_order_pending() LOC/MOC given neither Bid nor Ask"))
      case _ =>
        var s := OwnSide(v, order.otype);
        Ok(Step(WithSide(v, order.otype, s.(onClose := s.onClose + [order])), NullEvents))
    else Err(Exit("process_order_pending() given something other than LOO MOO LOC MOC"))
  }

  /** Cancelling a limit order that has just come to rest under a fresh id
      gives back the pool exactly as it was. */
  lemma RestThenCancel(v: Venue, time: real, order: Order, ctime: real)
    requires !order.otype.OtherType? && !Crosses(v, order)
    requires order.orderid !in Keys(OwnSide(v, order.otype).orders)
    ensures
      var r := ProcessOrderLim(v, time, order);
      && r.Ok?
      && ProcessOrderCan(r.value.venue, ctime, order)
         == Ok(Step(v, Events([ExchMsg(order.tid, order.orderid, Can, [], None, 0, 0)],
                              [Cancelled(v.id, ctime, order.orderid, OwnSide(v, order.otype).side, order.qty)])))
  {
    AddThenCancel(OwnSide(v, order.otype), order, ctime, v.id);
  }
  // ---------------------------------------------------------------------
  // The book never crosses.

  /** A side that only lost orders or quantity has a best price no better
      than before. */
  lemma RetainedBest(b: HalfBook, b': HalfBook)
    requires b'.side == b.side && Retains(b.orders, b'.orders) && |Lob(b')| > 0
    ensures |Lob(b)| > 0 && EqualOrBetter(b.side, Lob(b)[0].price, Lob(b')[0].price)
  {
    var i := BestOrder(b');
    var k := b'.orders[i].0;
    GetMember(b'.orders, i);
    var o := Get(b.orders, k).value;
    var j :| 0 <= j < |b.orders| && b.orders[j] == (k, o);
    BestBoundsOrders(b, j);
  }

  /** Walking one side with a taking order leaves the book uncrossed. */
  lemma TakeKeepsUncrossed(v: Venue, time: real, order: Order)
    requires SidesOk(v) && Uncrossed(v)
    ensures
      var r := ProcessOrderTake(v, time, order);
      r.Ok? ==> SidesOk(r.value.venue) && Uncrossed(r.value.venue)
  {
    var r := ProcessOrderTake(v, time, order);
    if r.Ok? {
      var t := Opposite(order.otype);
      TakeRetains(OwnSide(v, t), time, order, v.id);
      var v' := r.value.venue;
      if |Lob(OwnSide(v', t))| > 0 {
        RetainedBest(OwnSide(v, t), OwnSide(v', t));
      }
    }
  }

  /** Cancelling an order leaves the book uncrossed. */
  lemma CanKeepsUncrossed(v: Venue, time: real, order: Order)
    requires SidesOk(v) && Uncrossed(v)
    ensures
      var r := ProcessOrderCan(v, time, order);
      r.Ok? ==> SidesOk(r.value.venue) && Uncrossed(r.value.venue)
  {
    var r := ProcessOrderCan(v, time, order);
    if r.Ok? {
      var t: BookSide := order.otype;
      var b := OwnSide(v, t);
      RemoveRetains(b.orders, order.orderid);
      if |Lob(OwnSide(r.value.venue, t))| > 0 {
        RetainedBest(b, OwnSide(r.value.venue, t));
      }
    }
  }

  /** A limit order, whether it rests or takes, leaves the book uncrossed. */
  lemma LimKeepsUncrossed(v: Venue, time: real, order: Order)
    requires SidesOk(v) && Uncrossed(v)
    ensures
      var r := ProcessOrderLim(v, time, order);
      r.Ok? ==> SidesOk(r.value.venue) && Uncrossed(r.value.venue)
  {
    if !order.otype.OtherType? {
      if Crosses(v, order) {
        TakeKeepsUncrossed(v, time, order.(ostyle := ImmediateOrCancel));
      } else {
        LimRests(v, time, order);
      }
    }
  }
}
