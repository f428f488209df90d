/** The BSE 1.2 exchange: one book, a tape of trades, and `process_order2`,
    which adds the quote and, when the book then crosses, executes one trade
    against the best quote of the other side. The traders always quote one
    unit; the code accepts any quantity, and a zero or negative one can make
    the crossing step raise. */
module Bse12 {
  import opened Wrappers
  import opened Dicts
  import opened Messages
  import opened Depth
  import opened Bse1Book

  /** A tape record: time, price, the resting counterparty (`party1`), the
      submitter (`party2`) and the submitted quantity. */
  datatype TradeRecord = TradeRecord(time: real, price: int, party1: string, party2: string, qty: int)

  datatype Exchange = Exchange(book: Book, tape: seq<TradeRecord>)

  const NewExchange: Exchange := Exchange(EmptyBook, [])

  /** `add_order`: a bid goes to the bid side and anything else to the ask
      side, replacing any quote that trader has there. */
  function AddOrder(x: Exchange, q: Quote): (r: Exchange)
    ensures r.tape == x.tape
  {
    x.(book := AddQuote(x.book, q).0)
  }

  /** `add_order` leaves the trader's quote on the chosen side and changes
      nothing else. */
  lemma AddOrderSpec(x: Exchange, q: Quote)
    ensures var own := if q.otype == Bid then AddOrder(x, q).book.bids else AddOrder(x, q).book.asks;
      && Get(own.orders, q.tid) == Some(q)
      && (forall k :: k != q.tid ==> Get(own.orders, k) == Get(Own(x.book, if q.otype == Bid then Bid else Ask).orders, k))
      && (q.otype == Bid ==> AddOrder(x, q).book.asks == x.book.asks)
      && (q.otype != Bid ==> AddOrder(x, q).book.bids == x.book.bids)
  {
    BookAddSpec(if q.otype == Bid then x.book.bids else x.book.asks, q);
  }

  /** `del_order` as written: after deleting, it reads the best entry of the
      side's anonymised view, which raises IndexError once that side is
      empty. */
  function DelOrderAsWritten(x: Exchange, q: Quote): (r: Result<Exchange>)
    ensures r.Ok? ==> r.value == DelOrder(x, q)
  {
    var b := DelQuote(x.book, q);
    var side := if q.otype == Bid then b.bids else b.asks;
    if |side.orders| == 0 then Err(Crash("IndexError: list index out of range"))
    else Ok(x.(book := b))
  }

  /** `del_order` as intended (and as BSE 1.3 writes it): delete the
      trader's quote; an emptied side simply has no best price. */
  function DelOrder(x: Exchange, q: Quote): (r: Exchange)
    ensures r.tape == x.tape
  {
    x.(book := DelQuote(x.book, q))
  }

  /** `del_order` as written fails exactly when the side it deletes from is
      left empty. */
  lemma DelOrderAsWrittenFails(x: Exchange, q: Quote)
    ensures DelOrderAsWritten(x, q).Err? <==>
      |(if q.otype == Bid then DelOrder(x, q).book.bids else DelOrder(x, q).book.asks).orders| == 0
  {
  }

  /** A trader cancelling the only bid on the book crashes BSE 1.2. */
  lemma DelOnlyBidCrashes()
    ensures
      var q := Quote("B00", Bid, 100, 1, 0.0, None);
      DelOrderAsWritten(AddOrder(NewExchange, q), q).Err?
  {
    var q := Quote("B00", Bid, 100, 1, 0.0, None);
    BookAddSpec(EmptyBook.bids, q);
    BookDelSpec(AddOrder(NewExchange, q).book.bids, q);
  }

  /** The intended `del_order` leaves the trader without a quote on that
      side, every other quote as it was, and the other side untouched; an
      emptied side has no best price or trader. */
  lemma DelOrderSpec(x: Exchange, q: Quote)
    ensures var own := if q.otype == Bid then DelOrder(x, q).book.bids else DelOrder(x, q).book.asks;
      var old_ := if q.otype == Bid then x.book.bids else x.book.asks;
      && (forall k :: Get(own.orders, k) == if k == q.tid then None else Get(old_.orders, k))
      && (q.otype == Bid ==> DelOrder(x, q).book.asks == x.book.asks)
      && (q.otype != Bid ==> DelOrder(x, q).book.bids == x.book.bids)
      && (|own.orders| == 0 <==> BestPrice(own).None? && BestTid(own).None?)
  {
    var own := if q.otype == Bid then DelOrder(x, q).book.bids else DelOrder(x, q).book.asks;
    BookDelSpec(if q.otype == Bid then x.book.bids else x.book.asks, q);
    BestPriceSpec(own);
    BestTidSpec(own);
  }

  /** `process_order2`: add the quote, then trade if the book crosses. An
      order type other than Bid or Ask is fatal once the quote has been
      added; so is a cross in which deleting either best quote raises. */
  function ProcessOrder2(x: Exchange, time: real, q: Quote): (r: Result<(Exchange, Option<TradeRecord>)>)
    ensures r.Err? <==>
      || q.otype.OtherType?
      || var b1 := AddQuote(x.book, q).0;
         Crosses(b1, q.otype) && (DeleteBestRaises(b1.bids) || DeleteBestRaises(b1.asks))
  {
    var b1 := AddQuote(x.book, q).0;
    if q.otype.OtherType? then Err(Exit("process_order() given neither Bid nor Ask"))
    else
      var side: BookSide := q.otype;
      MatchSpec(b1, side);
      var (b2, hit) :- Match(b1, side);
      match hit
      case None => Ok((Exchange(b2, x.tape), None))
      case Some(h) =>
        var rec := TradeRecord(time, h.price, h.counterparty, q.tid, q.qty);
        Ok((Exchange(b2, x.tape + [rec]), Some(rec)))
  }

  /** Without a cross the quote rests, nothing is returned and the tape is
      unchanged. With one, a single record is appended and returned: at the
      other side's best price, with that side's best trader as `party1`, the
      submitter as `party2` and the submitted quantity; each side loses one
      quote. */
  lemma ProcessOrder2Spec(x: Exchange, time: real, q: Quote)
    requires !q.otype.OtherType?
    ensures
      var b1 := AddQuote(x.book, q).0;
      ProcessOrder2(x, time, q).Ok? ==>
      var (x', rec) := ProcessOrder2(x, time, q).value;
      && (rec.None? <==> !Crosses(b1, q.otype))
      && (rec.None? ==> x' == Exchange(b1, x.tape))
      && (rec.Some? ==>
            && x'.tape == x.tape + [rec.value]
            && rec.value.time == time && rec.value.qty == q.qty && rec.value.party2 == q.tid
            && Some(rec.value.party1) == BestTid(Other(b1, q.otype))
            && Some(rec.value.price) == BestPrice(Other(b1, q.otype))
            && |x'.book.bids.orders| == |b1.bids.orders| - 1
            && |x'.book.asks.orders| == |b1.asks.orders| - 1)
  {
    MatchSpec(AddQuote(x.book, q).0, q.otype);
  }

  /** On an uncrossed book `process_order2` keeps it uncrossed, and when a
      trade happens the submitter's own quote is the one deleted from its
      side: that side ends as it was before, less the submitter's quote. */
  lemma ProcessOrder2KeepsUncrossed(x: Exchange, time: real, q: Quote)
    requires Uncrossed(x.book) && !q.otype.OtherType?
    ensures ProcessOrder2(x, time, q).Ok? ==>
      var (x', rec) := ProcessOrder2(x, time, q).value;
      && Uncrossed(x'.book)
      && (rec.Some? ==> forall k :: Get(Own(x'.book, q.otype).orders, k)
                                    == if k == q.tid then None else Get(Own(x.book, q.otype).orders, k))
  {
    if q.otype == Bid {
      BidKeepsUncrossed(x.book, q);
    } else {
      AskKeepsUncrossed(x.book, q);
    }
  }

  /** A book whose quotes all have positive quantities. */
  predicate PositiveBook(b: Book) {
    PositiveQtys(b.bids) && PositiveQtys(b.asks)
  }

  /** With positive quantities throughout, as the traders always quote one
      unit, `process_order2` on a Bid or Ask never fails and the book keeps
      positive quantities. */
  lemma ProcessOrder2Positive(x: Exchange, time: real, q: Quote)
    requires PositiveBook(x.book) && q.qty > 0 && !q.otype.OtherType?
    ensures ProcessOrder2(x, time, q).Ok?
    ensures PositiveBook(ProcessOrder2(x, time, q).value.0.book)
  {
    var b1 := AddQuote(x.book, q).0;
    var side: BookSide := q.otype;
    forall e | e in b1.bids.orders
      ensures e.1.qty > 0
    {
      if q.otype == Bid {
        PutEntries(x.book.bids.orders, q.tid, q, e);
      }
    }
    forall e | e in b1.asks.orders
      ensures e.1.qty > 0
    {
      if q.otype != Bid {
        PutEntries(x.book.asks.orders, q.tid, q, e);
      }
    }
    MatchPositiveOk(b1, side);
    MatchSpec(b1, side);
    var b2 := Match(b1, side).value.0;
    if Crosses(b1, side) {
      DeleteBestSpec(b1.bids);
      DeleteBestSpec(b1.asks);
      forall e | e in b2.bids.orders
        ensures e in b1.bids.orders
      {
        RemovedEntry(b1.bids.orders, DeleteBest(b1.bids).value.1, e);
      }
      forall e | e in b2.asks.orders
        ensures e in b1.asks.orders
      {
        RemovedEntry(b1.asks.orders, DeleteBest(b1.asks).value.1, e);
      }
    }
  }

  /** Trader A bids one unit and trader B zero units, both at 100; an ask at
      90 then crosses, and deleting the best bid raises, so the ask is
      never traded. */
  lemma ZeroQuoteCrashes()
    ensures
      var x := AddOrder(AddOrder(NewExchange, Quote("A", Bid, 100, 1, 0.0, None)),
                        Quote("B", Bid, 100, 0, 1.0, None));
      ProcessOrder2(x, 2.0, Quote("C", Ask, 90, 1, 2.0, None)).Err?
  {
    var a := Quote("A", Bid, 100, 1, 0.0, None);
    var b := Quote("B", Bid, 100, 0, 1.0, None);
    var c := Quote("C", Ask, 90, 1, 2.0, None);
    var x := AddOrder(AddOrder(NewExchange, a), b);
    ZeroQuoteRaises();
    var b1 := AddQuote(x.book, c).0;
    assert b1.bids == x.book.bids;
    assert b1.asks.orders == [("C", c)];
    BestPriceSpec(b1.bids);
    BestPriceSpec(b1.asks);
    assert PricesOf(b1.asks.orders) == {90};
    assert PricesOf(b1.bids.orders[1..][1..]) == {};
    assert Crosses(b1, Ask);
  }

  /** The intended `del_order` keeps the book uncrossed. */
  lemma DelOrderKeepsUncrossed(x: Exchange, q: Quote)
    requires Uncrossed(x.book)
    ensures Uncrossed(DelOrder(x, q).book)
  {
    DelKeepsUncrossed(x.book, q);
  }

  /** The data `publish_lob` returns. */
  datatype PublicData = PublicData(time: real, bids: SideData, asks: SideData)

  function PublishLob(x: Exchange, time: real): (r: PublicData)
    ensures r.bids.worst == MinPrice && r.asks.worst == MaxPrice
  {
    PublicData(time, SideView(x.book.bids), SideView(x.book.asks))
  }

  /** The published best bid is the highest bid and the published best ask
      the lowest ask, each absent exactly when its side is empty; each
      published view lists every quoted price once, ascending, with the
      total quantity quoted at it. */
  lemma PublishLobSpec(x: Exchange, time: real)
    ensures var r := PublishLob(x, time);
      && (r.bids.best.None? <==> |x.book.bids.orders| == 0)
      && (r.asks.best.None? <==> |x.book.asks.orders| == 0)
      && (r.bids.best.Some? ==>
            && r.bids.best.value in PricesOf(x.book.bids.orders)
            && forall i :: 0 <= i < |x.book.bids.orders| ==> x.book.bids.orders[i].1.price <= r.bids.best.value)
      && (r.asks.best.Some? ==>
            && r.asks.best.value in PricesOf(x.book.asks.orders)
            && forall i :: 0 <= i < |x.book.asks.orders| ==> x.book.asks.orders[i].1.price >= r.asks.best.value)
      && StrictlyAscending(r.bids.lob) && StrictlyAscending(r.asks.lob)
      && (forall i :: 0 <= i < |r.bids.lob| ==> r.bids.lob[i].qty == DepthAt(x.book.bids.orders, r.bids.lob[i].price))
      && (forall i :: 0 <= i < |r.asks.lob| ==> r.asks.lob[i].qty == DepthAt(x.book.asks.orders, r.asks.lob[i].price))
  {
    SideViewSpec(x.book.bids);
    SideViewSpec(x.book.asks);
    BestPriceSpec(x.book.bids);
    BestPriceSpec(x.book.asks);
  }
}
