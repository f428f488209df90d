/** The quoting rules of two BSE2 trading strategies: Giveaway quotes at
    its customer's limit price, Shaver one tick better than the best price
    on its own side of the published book. */
module Strategies {
  import opened Wrappers
  import opened Messages
  import opened Traders
  import Bse2Venue
  import Bse2Exchange

  /** The quote a trader makes for its oldest assignment at a given price:
      same side, style and quantity, no exchange id yet. */
  function QuoteFor(t: Trader, a: Assignment, price: int, time: real): Order {
    NewOrder(t.tid, a.atype, a.astyle, price, a.qty, time, None, -1)
  }

  /** The Giveaway strategy quotes its oldest assignment at its limit price. */
  function GetOrderGiveaway(t: Trader, time: real): (r: (Trader, Option<Order>))
    ensures r.1.None? <==> |t.orders| == 0
    ensures r.1.Some? ==> r.0 == t.(lastquote := r.1)
    ensures r.1.None? ==> r.0 == t
  {
    if |t.orders| < 1 then (t, None)
    else
      var order := QuoteFor(t, t.orders[0], t.orders[0].price, time);
      (t.(lastquote := Some(order)), Some(order))
  }

  lemma MulNonNegative(x: int, y: int)
    requires x >= 0 && y >= 0
    ensures x * y >= 0
  {
  }

  /** A Giveaway quote never makes a loss: an execution at the quoted price
      or better for the trader is booked with a non-negative profit. */
  lemma GiveawayNeverLoses(t: Trader, time: real, tr: Transaction)
    requires GetOrderGiveaway(t, time).1.Some?
    requires tr.qty >= 0
    requires var q := GetOrderGiveaway(t, time).1.value;
      if q.otype == Bid then tr.price <= q.price else tr.price >= q.price
    ensures var q := GetOrderGiveaway(t, time).1.value;
      && q.otype == t.orders[0].atype && q.qty == t.orders[0].qty && q.myref.None?
      && Profit(q.otype, t.orders[0].price, tr) >= 0
  {
    var q := GetOrderGiveaway(t, time).1.value;
    if q.otype == Bid {
      MulNonNegative(t.orders[0].price - tr.price, tr.qty);
    } else {
      MulNonNegative(tr.price - t.orders[0].price, tr.qty);
    }
  }

  /** The Shaver price: one tick better than the best price on its own side,
      but never beyond its limit; on an empty side, the side's worst price.
      A side reported non-empty without a best price would make the
      addition fail in Python. */
  function ShaverPrice(a: Assignment, lob: Bse2Exchange.PublicData): Result<int> {
    if a.atype == Bid then
      if lob.bids.n > 0 then
        if lob.bids.bestP.None? then Err(Crash("TypeError: unsupported operand type(s) for +: 'NoneType' and 'int'"))
        else Ok(if lob.bids.bestP.value + 1 > a.price then a.price else lob.bids.bestP.value + 1)
      else Ok(lob.bids.worstP)
    else
      if lob.asks.n > 0 then
        if lob.asks.bestP.None? then Err(Crash("TypeError: unsupported operand type(s) for -: 'NoneType' and 'int'"))
        else Ok(if lob.asks.bestP.value - 1 < a.price then a.price else lob.asks.bestP.value - 1)
      else Ok(lob.asks.worstP)
  }

  /** The Shaver strategy: quote the oldest assignment at the Shaver price. */
  function GetOrderShaver(t: Trader, time: real, lob: Bse2Exchange.PublicData): (r: Result<(Trader, Option<Order>)>)
    ensures r.Ok? ==> (r.value.1.None? <==> |t.orders| == 0)
    ensures r.Ok? && r.value.1.Some? ==> r.value.0 == t.(lastquote := r.value.1)
  {
    if |t.orders| < 1 then Ok((t, None))
    else
      var price :- ShaverPrice(t.orders[0], lob);
      var order := QuoteFor(t, t.orders[0], price, time);
      Ok((t.(lastquote := Some(order)), Some(order)))
  }

  /** A Shaver bid on a non-empty side is the highest price allowed both by
      its limit and by a one-tick improvement on the best bid: it is at most
      each of them and equals one of them. A Shaver ask is the lowest price
      at least its limit and the best ask less one tick. On an empty side
      the quote is the side's worst price. The quote keeps the assignment's
      side and quantity. */
  lemma ShaverShaves(t: Trader, time: real, lob: Bse2Exchange.PublicData)
    requires |t.orders| > 0
    requires GetOrderShaver(t, time, lob).Ok?
    ensures var q := GetOrderShaver(t, time, lob).value.1.value;
      var limit := t.orders[0].price;
      && q.otype == t.orders[0].atype && q.qty == t.orders[0].qty
      && (q.otype == Bid && lob.bids.n > 0 ==>
            var best := lob.bids.bestP.value;
            q.price <= limit && q.price <= best + 1 && (q.price == limit || q.price == best + 1))
      && (q.otype == Bid && lob.bids.n <= 0 ==> q.price == lob.bids.worstP)
      && (q.otype != Bid && lob.asks.n > 0 ==>
            var best := lob.asks.bestP.value;
            q.price >= limit && q.price >= best - 1 && (q.price == limit || q.price == best - 1))
      && (q.otype != Bid && lob.asks.n <= 0 ==> q.price == lob.asks.worstP)
  {
  }

  /** On the data the exchange publishes, the Shaver never fails, and a
      Shaver bid either outbids every live bid in the lit pool or sits at its
      limit; a Shaver ask likewise undercuts every live ask or sits at its
      limit. */
  lemma ShaverOnPublished(t: Trader, time: real, x: Bse2Exchange.Exchange, depth: Option<int>)
    requires |t.orders| > 0
    requires Bse2Venue.SidesOk(x.lit)
    ensures var r := GetOrderShaver(t, time, Bse2Exchange.PublishLob(x, time, depth));
      && r.Ok?
      && var q := r.value.1.value;
      && (q.otype == Bid ==>
            q.price == t.orders[0].price
            || forall j :: 0 <= j < |x.lit.bids.orders| ==> x.lit.bids.orders[j].1.price < q.price)
      && (q.otype != Bid ==>
            q.price == t.orders[0].price
            || forall j :: 0 <= j < |x.lit.asks.orders| ==> x.lit.asks.orders[j].1.price > q.price)
  {
    var lob := Bse2Exchange.PublishLob(x, time, depth);
    Bse2Exchange.PublishedBest(x, time, depth);
    assert lob.bids.n == |x.lit.bids.orders| && lob.asks.n == |x.lit.asks.orders|;
  }
}
