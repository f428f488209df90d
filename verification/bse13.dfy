/** The BSE 1.3 exchange: BSE 1.2's book and matching, plus a quote id
    stamped on every quote the exchange accepts, an Addition or Overwrite
    response from `add_order`, Cancel records on the tape, and a
    `del_order` that copes with an emptied side. */
module Bse13 {
  import opened Wrappers
  import opened Dicts
  import opened Messages
  import opened Bse1Book
  import Bse12

  /** A tape record: a trade, or a cancellation holding the cancelled quote. */
  datatype TapeItem =
    | Trade(time: real, price: int, party1: string, party2: string, qty: int)
    | Cancel(time: real, order: Quote)

  /** The book, the tape and the next quote id. */
  datatype Exchange = Exchange(book: Book, tape: seq<TapeItem>, quoteId: int)

  const NewExchange: Exchange := Exchange(EmptyBook, [], 0)

  /** `add_order`: stamp the quote with the next quote id, advance the
      counter, and add the quote as BSE 1.2 does; return the id and
      `book_add`'s response. */
  function AddOrder(x: Exchange, q: Quote): (r: (Exchange, int, AddResult))
    ensures r.1 == x.quoteId && r.0.quoteId == r.1 + 1 && r.0.tape == x.tape
  {
    var (b, res) := AddQuote(x.book, q.(qid := Some(x.quoteId)));
    (x.(book := b, quoteId := x.quoteId + 1), x.quoteId, res)
  }

  /** The quote is stored under its trader with the returned id; the
      response is Addition exactly when the trader had no quote on that side
      before, and then that side has one more quote. */
  lemma AddOrderSpec(x: Exchange, q: Quote)
    ensures
      var (x', qid, res) := AddOrder(x, q);
      var side: BookSide := if q.otype == Bid then Bid else Ask;
      && Get(Own(x'.book, side).orders, q.tid) == Some(q.(qid := Some(qid)))
      && (res == Addition <==> q.tid !in Keys(Own(x.book, side).orders))
      && |Own(x'.book, side).orders| == |Own(x.book, side).orders| + (if res == Addition then 1 else 0)
      && Other(x'.book, side) == Other(x.book, side)
  {
    BookAddSpec(if q.otype == Bid then x.book.bids else x.book.asks, q.(qid := Some(x.quoteId)));
  }

  /** `del_order`: delete the trader's quote from its side and append one
      Cancel record holding the quote given; an order type other than Bid or
      Ask is fatal. */
  function DelOrder(x: Exchange, time: real, q: Quote): (r: Result<Exchange>)
    ensures r.Err? <==> q.otype.OtherType?
    ensures r.Ok? ==> r.value.quoteId == x.quoteId
  {
    if q.otype == Bid || q.otype == Ask then
      Ok(x.(book := DelQuote(x.book, q), tape := x.tape + [TapeItem.Cancel(time, q)]))
    else
      Err(Exit("bad order type in del_quote()"))
  }

  /** Deleting appends exactly one Cancel record, and on the book does what
      BSE 1.2's `del_order` was meant to do: it never fails, and an emptied
      side has no best price. */
  lemma DelOrderSpec(x: Exchange, time: real, q: Quote)
    requires !q.otype.OtherType?
    ensures var x' := DelOrder(x, time, q).value;
      && x'.tape == x.tape + [TapeItem.Cancel(time, q)]
      && x'.book == Bse12.DelOrder(Bse12.Exchange(x.book, []), q).book
      && (|Own(x'.book, q.otype).orders| == 0 <==> BestPrice(Own(x'.book, q.otype)).None?)
  {
    Bse12.DelOrderSpec(Bse12.Exchange(x.book, []), q);
  }

  /** `process_order2`: stamp and add the quote, then trade as BSE 1.2 does,
      recording the trade with the submitted quantity. It fails for an order
      type other than Bid or Ask, and on a cross in which deleting either
      best quote raises. */
  function ProcessOrder2(x: Exchange, time: real, q: Quote): (r: Result<(Exchange, Option<TapeItem>)>)
    ensures r.Err? <==>
      || q.otype.OtherType?
      || var b1 := AddOrder(x, q).0.book;
         Crosses(b1, q.otype) && (DeleteBestRaises(b1.bids) || DeleteBestRaises(b1.asks))
    ensures r.Ok? ==> r.value.0.quoteId == x.quoteId + 1
  {
    var (x1, qid, _) := AddOrder(x, q);
    if q.otype.OtherType? then Err(Exit("process_order() given neither Bid nor Ask"))
    else
      var side: BookSide := q.otype;
      MatchSpec(x1.book, side);
      var (b2, hit) :- Match(x1.book, side);
      match hit
      case None => Ok((x1.(book := b2), None))
      case Some(h) =>
        var rec := Trade(time, h.price, h.counterparty, q.tid, q.qty);
        Ok((x1.(book := b2, tape := x1.tape + [rec]), Some(rec)))
  }

  /** BSE 1.3 trades exactly as BSE 1.2 does: it fails on the same inputs,
      and otherwise the same book results and the same trade, now with a
      type tag; only the quote id differs. */
  lemma ProcessOrder2AsInBse12(x: Exchange, time: real, q: Quote)
    requires !q.otype.OtherType?
    ensures ProcessOrder2(x, time, q).Ok? <==>
      Bse12.ProcessOrder2(Bse12.Exchange(x.book, []), time, q.(qid := Some(x.quoteId))).Ok?
    ensures ProcessOrder2(x, time, q).Ok? ==>
      var (x', rec) := ProcessOrder2(x, time, q).value;
      var (y', rec12) := Bse12.ProcessOrder2(Bse12.Exchange(x.book, []), time, q.(qid := Some(x.quoteId))).value;
      && x'.book == y'.book
      && (rec.None? <==> rec12.None?)
      && (rec.Some? ==>
            rec.value == Trade(time, rec12.value.price, rec12.value.party1, rec12.value.party2, rec12.value.qty))
  {
  }

  /** Every quote on the book carries an id below the next one. */
  ghost predicate QidsBelow(x: Exchange) {
    && (forall e :: e in x.book.bids.orders ==> e.1.qid.Some? && e.1.qid.value < x.quoteId)
    && (forall e :: e in x.book.asks.orders ==> e.1.qid.Some? && e.1.qid.value < x.quoteId)
  }

  /** Adding a quote keeps every id below the counter, and the id just
      stamped was held by no quote on the book. */
  lemma AddOrderQids(x: Exchange, q: Quote)
    requires QidsBelow(x)
    ensures QidsBelow(AddOrder(x, q).0)
    ensures forall e :: e in x.book.bids.orders || e in x.book.asks.orders ==> e.1.qid != Some(AddOrder(x, q).1)
  {
    var q' := q.(qid := Some(x.quoteId));
    var x' := AddOrder(x, q).0;
    forall e | e in x'.book.bids.orders
      ensures e.1.qid.Some? && e.1.qid.value < x'.quoteId
    {
      if q.otype == Bid {
        PutEntries(x.book.bids.orders, q.tid, q', e);
      }
    }
    forall e | e in x'.book.asks.orders
      ensures e.1.qid.Some? && e.1.qid.value < x'.quoteId
    {
      if q.otype != Bid {
        PutEntries(x.book.asks.orders, q.tid, q', e);
      }
    }
  }

  /** Deleting keeps every id below the counter. */
  lemma DelOrderQids(x: Exchange, time: real, q: Quote)
    requires QidsBelow(x) && !q.otype.OtherType?
    ensures QidsBelow(DelOrder(x, time, q).value)
  {
    var x' := DelOrder(x, time, q).value;
    forall e | e in x'.book.bids.orders
      ensures e in x.book.bids.orders
    {
      if q.otype == Bid && Get(x.book.bids.orders, q.tid) != None {
        RemovedEntry(x.book.bids.orders, q.tid, e);
      }
    }
    forall e | e in x'.book.asks.orders
      ensures e in x.book.asks.orders
    {
      if q.otype == Ask && Get(x.book.asks.orders, q.tid) != None {
        RemovedEntry(x.book.asks.orders, q.tid, e);
      }
    }
  }

  /** Processing an order keeps every id below the counter. */
  lemma ProcessOrder2Qids(x: Exchange, time: real, q: Quote)
    requires QidsBelow(x) && !q.otype.OtherType?
    ensures ProcessOrder2(x, time, q).Ok? ==> QidsBelow(ProcessOrder2(x, time, q).value.0)
  {
    var x1 := AddOrder(x, q).0;
    AddOrderQids(x, q);
    var side: BookSide := q.otype;
    if ProcessOrder2(x, time, q).Ok? && Crosses(x1.book, side) {
      var x' := ProcessOrder2(x, time, q).value.0;
      DeleteBestSpec(x1.book.bids);
      DeleteBestSpec(x1.book.asks);
      forall e | e in x'.book.bids.orders
        ensures e in x1.book.bids.orders
      {
        RemovedEntry(x1.book.bids.orders, DeleteBest(x1.book.bids).value.1, e);
      }
      forall e | e in x'.book.asks.orders
        ensures e in x1.book.asks.orders
      {
        RemovedEntry(x1.book.asks.orders, DeleteBest(x1.book.asks).value.1, e);
      }
    }
  }

  /** The data `publish_lob` returns: both sides, the next quote id and the
      whole tape. */
  datatype PublicData = PublicData(time: real, bids: SideData, asks: SideData, qid: int, tape: seq<TapeItem>)

  function PublishLob(x: Exchange, time: real): (r: PublicData)
    ensures r.bids.best.None? <==> r.bids.n == 0
    ensures r.asks.best.None? <==> r.asks.n == 0
  {
    SideViewSpec(x.book.bids);
    SideViewSpec(x.book.asks);
    PublicData(time, SideView(x.book.bids), SideView(x.book.asks), x.quoteId, x.tape)
  }

  /** BSE 1.3 publishes what BSE 1.2 does, plus the quote id and the tape. */
  lemma PublishLobAsInBse12(x: Exchange, time: real)
    ensures var r := PublishLob(x, time); var r12 := Bse12.PublishLob(Bse12.Exchange(x.book, []), time);
      && r.time == r12.time && r.bids == r12.bids && r.asks == r12.asks
      && r.qid == x.quoteId && r.tape == x.tape
  {
  }
}
