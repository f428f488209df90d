/** The order book of BSE 1.2 and of its 1.3 successor.

    Each side holds at most one quote per trader, filed under the trader id.
    Every mutation ends by rebuilding the side's views from its quotes: the
    queue of a price level lists the quotes at that price in dictionary
    order, the anonymised view lists one (price, total quantity) pair per
    price in ascending price order, and the best price is the view's last
    entry on the bid side and its first on the ask side. The model derives
    these views from the quotes instead of storing them; the copies the
    source stores (`lob`, `lob_anon`, `best_price`, `best_tid`, `n_orders`)
    always equal them after each public operation. The two versions share
    this code; the 1.3 quote carries a quote id. */
module Bse1Book {
  import opened Wrappers
  import opened Dicts
  import opened Messages
  import opened Depth

  /** `bse_sys_minprice` and `bse_sys_maxprice`: the worst prices of the bid
      and of the ask side. */
  const MinPrice := 1
  const MaxPrice := 1000

  /** A trader's quote. BSE 1.3 stamps a quote id on it; a BSE 1.2 quote has
      none. */
  datatype Quote = Quote(tid: string, otype: OType, price: int, qty: int, time: real, qid: Option<int>)

  /** One row of a price level's queue: time, quantity, trader id and (1.3)
      quote id. */
  datatype LobRow = LobRow(time: real, qty: int, tid: string, qid: Option<int>)

  /** Every quote is filed under its own trader id. */
  predicate KeyedByTid(d: Dict<string, Quote>) {
    forall i :: 0 <= i < |d| ==> d[i].0 == d[i].1.tid
  }

  /** The `orders` dictionary of a side. */
  type Quotes = d: Dict<string, Quote> | UniqueKeys(d) && KeyedByTid(d) witness []

  datatype Half = Half(booktype: BookSide, worstprice: int, orders: Quotes)

  /** The result `book_add` reports in BSE 1.3. */
  datatype AddResult = Addition | Overwrite

  // ---------------------------------------------------------------------
  // The views `build_lob` rebuilds
  // ---------------------------------------------------------------------

  /** The prices quoted on a side. */
  function PricesOf(d: Dict<string, Quote>): set<int> {
    if |d| == 0 then {} else {d[0].1.price} + PricesOf(d[1..])
  }

  /** The total quantity quoted at price `p`. */
  function DepthAt(d: Dict<string, Quote>, p: int): int {
    if |d| == 0 then 0
    else (if d[0].1.price == p then d[0].1.qty else 0) + DepthAt(d[1..], p)
  }

  function RowOf(q: Quote): LobRow {
    LobRow(q.time, q.qty, q.tid, q.qid)
  }

  /** The queue of price level `p` as `build_lob` appends to it: the quotes
      at `p`, in dictionary order. */
  function Queue(d: Dict<string, Quote>, p: int): seq<LobRow> {
    if |d| == 0 then []
    else (if d[0].1.price == p then [RowOf(d[0].1)] else []) + Queue(d[1..], p)
  }

  /** One more quote of `qty` at `price` added to an ascending (price, qty)
      list. */
  function InsertPrice(anon: seq<PriceQty>, price: int, qty: int): seq<PriceQty> {
    if |anon| == 0 then [PriceQty(price, qty)]
    else if anon[0].price == price then [PriceQty(price, anon[0].qty + qty)] + anon[1..]
    else if price < anon[0].price then [PriceQty(price, qty)] + anon
    else [anon[0]] + InsertPrice(anon[1..], price, qty)
  }

  /** `lob_anon`: the level totals `build_lob` accumulates, listed by
      `anonymize_lob` in ascending price order. */
  function LobAnon(d: Dict<string, Quote>): seq<PriceQty> {
    if |d| == 0 then [] else InsertPrice(LobAnon(d[1..]), d[0].1.price, d[0].1.qty)
  }

  function AnonPrices(anon: seq<PriceQty>): set<int> {
    if |anon| == 0 then {} else {anon[0].price} + AnonPrices(anon[1..])
  }

  /** The quantity listed at price `p`, zero when `p` is not listed. */
  function AnonQtyAt(anon: seq<PriceQty>, p: int): int {
    if |anon| == 0 then 0
    else if anon[0].price == p then anon[0].qty
    else AnonQtyAt(anon[1..], p)
  }

  /** `best_price`: the last entry of the anonymised view on the bid side,
      the first on the ask side, None when the side is empty. */
  function BestPrice(h: Half): Option<int> {
    var anon := LobAnon(h.orders);
    if |anon| == 0 then None
    else if h.booktype == Bid then Some(anon[|anon| - 1].price)
    else Some(anon[0].price)
  }

  /** `best_tid`: the trader at the head of the best level's queue. */
  function BestTid(h: Half): Option<string> {
    match BestPrice(h)
    case None => None
    case Some(p) =>
      var q := Queue(h.orders, p);
      if |q| == 0 then None else Some(q[0].tid)
  }

  // ---------------------------------------------------------------------
  // What the views say
  // ---------------------------------------------------------------------

  lemma {:induction false} AnonPriceIn(anon: seq<PriceQty>, i: nat)
    requires i < |anon|
    ensures anon[i].price in AnonPrices(anon)
  {
    if i > 0 {
      AnonPriceIn(anon[1..], i - 1);
    }
  }

  lemma {:induction false} AnonPriceAt(anon: seq<PriceQty>, p: int) returns (i: nat)
    requires p in AnonPrices(anon)
    ensures i < |anon| && anon[i].price == p
  {
    if anon[0].price == p {
      i := 0;
    } else {
      var j := AnonPriceAt(anon[1..], p);
      i := j + 1;
    }
  }

  lemma AscendingTail(anon: seq<PriceQty>)
    requires |anon| > 0 && StrictlyAscending(anon)
    ensures StrictlyAscending(anon[1..])
    ensures forall p :: p in AnonPrices(anon[1..]) ==> anon[0].price < p
  {
    forall p | p in AnonPrices(anon[1..])
      ensures anon[0].price < p
    {
      var i := AnonPriceAt(anon[1..], p);
      assert anon[i + 1].price == p;
    }
  }

  lemma AscendingCons(x: PriceQty, anon: seq<PriceQty>)
    requires StrictlyAscending(anon)
    requires forall p :: p in AnonPrices(anon) ==> x.price < p
    ensures StrictlyAscending([x] + anon)
  {
    forall i, j | 0 <= i < j < |anon| + 1
      ensures ([x] + anon)[i].price < ([x] + anon)[j].price
    {
      if i == 0 {
        AnonPriceIn(anon, j - 1);
      }
    }
  }

  /** Inserting keeps the list ascending, adds the price, and adds the
      quantity at that price only. */
  lemma {:induction false} InsertPriceSpec(anon: seq<PriceQty>, price: int, qty: int)
    requires StrictlyAscending(anon)
    ensures StrictlyAscending(InsertPrice(anon, price, qty))
    ensures AnonPrices(InsertPrice(anon, price, qty)) == AnonPrices(anon) + {price}
    ensures forall p :: AnonQtyAt(InsertPrice(anon, price, qty), p)
                        == AnonQtyAt(anon, p) + (if p == price then qty else 0)
  {
    var r := InsertPrice(anon, price, qty);
    if |anon| == 0 {
    } else if anon[0].price == price {
      AscendingTail(anon);
      assert r[1..] == anon[1..];
      AscendingCons(PriceQty(price, anon[0].qty + qty), anon[1..]);
    } else if price < anon[0].price {
      AscendingTail(anon);
      assert r[1..] == anon;
      forall p | p in AnonPrices(anon)
        ensures price < p
      {
        var i := AnonPriceAt(anon, p);
        if i > 0 {
          assert anon[0].price < anon[i].price;
        }
      }
      AscendingCons(PriceQty(price, qty), anon);
      AnonQtyAbsent(anon, price);
    } else {
      AscendingTail(anon);
      var rest := InsertPrice(anon[1..], price, qty);
      InsertPriceSpec(anon[1..], price, qty);
      assert r[1..] == rest;
      AscendingCons(anon[0], rest);
    }
  }

  lemma {:induction false} AnonQtyAbsent(anon: seq<PriceQty>, p: int)
    requires p !in AnonPrices(anon)
    ensures AnonQtyAt(anon, p) == 0
  {
    if |anon| > 0 {
      AnonQtyAbsent(anon[1..], p);
    }
  }

  /** In an ascending list, a listed price's quantity is its entry's. */
  lemma {:induction false} AnonQtyAtIndex(anon: seq<PriceQty>, i: nat)
    requires StrictlyAscending(anon) && i < |anon|
    ensures AnonQtyAt(anon, anon[i].price) == anon[i].qty
  {
    if i > 0 {
      assert anon[0].price < anon[i].price;
      AscendingTail(anon);
      AnonQtyAtIndex(anon[1..], i - 1);
    }
  }

  /** The anonymised view lists exactly the quoted prices, in strictly
      ascending order, each with the total quantity quoted at it. */
  lemma {:induction false} LobAnonSpec(d: Dict<string, Quote>)
    ensures StrictlyAscending(LobAnon(d))
    ensures AnonPrices(LobAnon(d)) == PricesOf(d)
    ensures forall p :: AnonQtyAt(LobAnon(d), p) == DepthAt(d, p)
    ensures |LobAnon(d)| == 0 <==> |d| == 0
  {
    if |d| > 0 {
      LobAnonSpec(d[1..]);
      InsertPriceSpec(LobAnon(d[1..]), d[0].1.price, d[0].1.qty);
      AnonPriceIn(LobAnon(d), 0);
    }
  }

  /** Each entry of the anonymised view is a quoted price with the total
      quantity quoted at it. */
  lemma LobAnonEntries(d: Dict<string, Quote>)
    ensures StrictlyAscending(LobAnon(d))
    ensures forall i :: 0 <= i < |LobAnon(d)| ==>
      LobAnon(d)[i].price in PricesOf(d) && LobAnon(d)[i].qty == DepthAt(d, LobAnon(d)[i].price)
  {
    LobAnonSpec(d);
    forall i | 0 <= i < |LobAnon(d)|
      ensures LobAnon(d)[i].price in PricesOf(d) && LobAnon(d)[i].qty == DepthAt(d, LobAnon(d)[i].price)
    {
      AnonPriceIn(LobAnon(d), i);
      AnonQtyAtIndex(LobAnon(d), i);
    }
  }

  lemma {:induction false} PriceOfEntry(d: Dict<string, Quote>, i: nat)
    requires i < |d|
    ensures d[i].1.price in PricesOf(d)
  {
    if i > 0 {
      PriceOfEntry(d[1..], i - 1);
    }
  }

  lemma {:induction false} EntryOfPrice(d: Dict<string, Quote>, p: int) returns (i: nat)
    requires p in PricesOf(d)
    ensures i < |d| && d[i].1.price == p
  {
    if d[0].1.price == p {
      i := 0;
    } else {
      var j := EntryOfPrice(d[1..], p);
      i := j + 1;
    }
  }

  /** The best price is quoted on the side, no quote on the side is better,
      and there is none exactly when the side is empty. */
  lemma BestPriceSpec(h: Half)
    ensures BestPrice(h).None? <==> |h.orders| == 0
    ensures BestPrice(h).Some? ==> BestPrice(h).value in PricesOf(h.orders)
    ensures BestPrice(h).Some? && h.booktype == Bid ==>
      forall i :: 0 <= i < |h.orders| ==> h.orders[i].1.price <= BestPrice(h).value
    ensures BestPrice(h).Some? && h.booktype == Ask ==>
      forall i :: 0 <= i < |h.orders| ==> h.orders[i].1.price >= BestPrice(h).value
  {
    var d := h.orders;
    var anon := LobAnon(d);
    LobAnonSpec(d);
    if |anon| > 0 {
      AnonPriceIn(anon, 0);
      AnonPriceIn(anon, |anon| - 1);
      forall i | 0 <= i < |d|
        ensures anon[0].price <= d[i].1.price <= anon[|anon| - 1].price
      {
        PriceOfEntry(d, i);
        var j := AnonPriceAt(anon, d[i].1.price);
      }
    }
  }

  /** A quoted price has a non-empty queue, and each row of a queue is the
      row of a quote at that price. */
  lemma {:induction false} QueueSpec(d: Dict<string, Quote>, p: int)
    ensures p in PricesOf(d) ==> |Queue(d, p)| > 0
    ensures forall r :: r in Queue(d, p) ==> exists i :: 0 <= i < |d| && d[i].1.price == p && RowOf(d[i].1) == r
  {
    if |d| > 0 {
      QueueSpec(d[1..], p);
      forall r | r in Queue(d, p)
        ensures exists i :: 0 <= i < |d| && d[i].1.price == p && RowOf(d[i].1) == r
      {
        if d[0].1.price == p && r == RowOf(d[0].1) {
          assert d[0].1.price == p && RowOf(d[0].1) == r;
        } else {
          assert r in Queue(d[1..], p);
          var i :| 0 <= i < |d[1..]| && d[1..][i].1.price == p && RowOf(d[1..][i].1) == r;
          assert d[i + 1].1.price == p && RowOf(d[i + 1].1) == r;
        }
      }
    }
  }

  /** A non-empty side has a best trader, whose quote is at the best price. */
  lemma BestTidSpec(h: Half)
    ensures BestTid(h).Some? <==> |h.orders| > 0
    ensures BestTid(h).Some? ==>
      BestTid(h).value in Keys(h.orders) && Get(h.orders, BestTid(h).value).value.price == BestPrice(h).value
  {
    BestPriceSpec(h);
    if |h.orders| > 0 {
      var p := BestPrice(h).value;
      QueueSpec(h.orders, p);
      var r := Queue(h.orders, p)[0];
      assert r in Queue(h.orders, p);
      var i :| 0 <= i < |h.orders| && h.orders[i].1.price == p && RowOf(h.orders[i].1) == r;
      assert h.orders[i] == (r.tid, h.orders[i].1);
      GetEntry(h.orders, r.tid, h.orders[i].1);
    }
  }

  // ---------------------------------------------------------------------
  // Adding and deleting quotes
  // ---------------------------------------------------------------------

  lemma PutKeyed(d: Quotes, q: Quote)
    ensures UniqueKeys(Put(d, q.tid, q)) && KeyedByTid(Put(d, q.tid, q))
  {
    var r := Put(d, q.tid, q);
    forall i | 0 <= i < |r|
      ensures r[i].0 == r[i].1.tid
    {
      PutEntries(d, q.tid, q, r[i]);
    }
  }

  /** An entry left after deleting `k` was there before, under another key. */
  lemma RemovedEntry(d: Quotes, k: string, e: (string, Quote))
    requires e in Remove(d, k)
    ensures e in d && e.0 != k
  {
    RemoveEntries(d, k, e);
    var r := Remove(d, k);
    var i :| 0 <= i < |r| && r[i] == e;
    assert e.0 in Keys(r);
  }

  lemma RemoveKeyed(d: Quotes, k: string)
    ensures UniqueKeys(Remove(d, k)) && KeyedByTid(Remove(d, k))
  {
    var r := Remove(d, k);
    forall i | 0 <= i < |r|
      ensures r[i].0 == r[i].1.tid
    {
      RemovedEntry(d, k, r[i]);
    }
  }

  /** `book_add`: file the quote under its trader id, replacing any quote
      that trader already has on the side; BSE 1.3 reports whether the
      number of quotes grew. */
  function BookAdd(h: Half, q: Quote): (r: (Half, AddResult))
    ensures r.0.booktype == h.booktype && r.0.worstprice == h.worstprice
    ensures q.tid in Keys(r.0.orders) && |r.0.orders| > 0
  {
    PutKeyed(h.orders, q);
    var orders := Put(h.orders, q.tid, q);
    (h.(orders := orders), if |orders| != |h.orders| then Addition else Overwrite)
  }

  /** After `book_add` the trader's quote is the new one and every other
      trader's is as it was; the side grows by one quote, reported as an
      Addition, exactly when the trader had no quote on it. */
  lemma BookAddSpec(h: Half, q: Quote)
    ensures forall k :: Get(BookAdd(h, q).0.orders, k) == if k == q.tid then Some(q) else Get(h.orders, k)
    ensures BookAdd(h, q).1 == Addition <==> q.tid !in Keys(h.orders)
    ensures |BookAdd(h, q).0.orders| == |h.orders| + (if q.tid in Keys(h.orders) then 0 else 1)
  {
    forall k {
      GetPut(h.orders, q.tid, q, k);
    }
  }

  /** `book_del`: delete the trader's quote when the trader has one on the
      side; otherwise nothing changes. */
  function BookDel(h: Half, q: Quote): (r: Half)
    ensures r.booktype == h.booktype && r.worstprice == h.worstprice
  {
    if Get(h.orders, q.tid) != None then
      RemoveKeyed(h.orders, q.tid);
      h.(orders := Remove(h.orders, q.tid))
    else h
  }

  /** `book_del` leaves the trader without a quote and every other trader's
      quote as it was; it changes nothing exactly when the trader had no
      quote. */
  lemma BookDelSpec(h: Half, q: Quote)
    ensures forall k :: Get(BookDel(h, q).orders, k) == if k == q.tid then None else Get(h.orders, k)
    ensures BookDel(h, q) == h <==> q.tid !in Keys(h.orders)
    ensures |BookDel(h, q).orders| == |h.orders| - (if q.tid in Keys(h.orders) then 1 else 0)
  {
    forall k {
      GetRemove(h.orders, q.tid, k);
    }
    if q.tid in Keys(h.orders) {
      assert |BookDel(h, q).orders| != |h.orders|;
    }
  }

  /** `delete_best` raises ValueError in its branch for a best level of
      total quantity one: it drops that level and, when quotes remain, takes
      `min` (BSE 1.3: `max` on the bid side) of the remaining prices, an
      empty set when every remaining quote was at that same price. That
      happens exactly when the side holds several quotes, all at one price,
      whose quantities total one. */
  predicate DeleteBestRaises(h: Half)
    requires |h.orders| > 0
  {
    var p := h.orders[0].1.price;
    |h.orders| > 1 && PricesOf(h.orders) == {p} && DepthAt(h.orders, p) == 1
  }

  /** `delete_best`: delete the quote at the head of the best level's queue
      and return its trader id. Whether the level's total quantity is one or
      more, the source ends by rebuilding the views from the remaining
      quotes, so when it does not raise both of its branches remove exactly
      that quote; the best price the first branch sets (with `min` on both
      sides in BSE 1.2, with `max` or `min`, or `worstprice` on an emptied
      side, in BSE 1.3) is overwritten by the rebuild. An empty side is
      never passed. */
  function DeleteBest(h: Half): (r: Result<(Half, string)>)
    requires |h.orders| > 0
    ensures r.Ok? ==> r.value.0.booktype == h.booktype && r.value.0.worstprice == h.worstprice
  {
    if DeleteBestRaises(h) then Err(Crash("ValueError: arg is an empty sequence"))
    else
      BestTidSpec(h);
      var tid := BestTid(h).value;
      RemoveKeyed(h.orders, tid);
      Ok((h.(orders := Remove(h.orders, tid)), tid))
  }

  /** `delete_best` fails exactly in the case above; otherwise it removes
      one quote, the best trader's, which was at the best price, and leaves
      every other quote as it was. */
  lemma DeleteBestSpec(h: Half)
    requires |h.orders| > 0
    ensures DeleteBest(h).Err? <==> DeleteBestRaises(h)
    ensures DeleteBest(h).Ok? ==>
      var (h', tid) := DeleteBest(h).value;
      && Some(tid) == BestTid(h)
      && Get(h.orders, tid).Some? && Get(h.orders, tid).value.price == BestPrice(h).value
      && |h'.orders| == |h.orders| - 1
      && forall k :: Get(h'.orders, k) == if k == tid then None else Get(h.orders, k)
  {
    BestTidSpec(h);
    var tid := BestTid(h).value;
    forall k {
      GetRemove(h.orders, tid, k);
    }
  }

  /** Every quote on the side has a positive quantity, as the traders of
      BSE 1.x, which always quote one unit, ensure. */
  predicate PositiveQtys(h: Half) {
    forall e :: e in h.orders ==> e.1.qty > 0
  }

  lemma {:induction false} DepthOfOnePrice(d: Dict<string, Quote>, p: int)
    requires forall i :: 0 <= i < |d| ==> d[i].1.price == p && d[i].1.qty > 0
    ensures DepthAt(d, p) >= |d|
  {
    if |d| > 0 {
      DepthOfOnePrice(d[1..], p);
    }
  }

  /** With positive quantities `delete_best` never raises: several quotes at
      one price total at least two. */
  lemma PositiveNeverRaises(h: Half)
    requires |h.orders| > 0 && PositiveQtys(h)
    ensures DeleteBest(h).Ok?
  {
    var d := h.orders;
    var p := d[0].1.price;
    if |d| > 1 && PricesOf(d) == {p} {
      forall i | 0 <= i < |d|
        ensures d[i].1.price == p && d[i].1.qty > 0
      {
        PriceOfEntry(d, i);
        assert d[i] in d;
      }
      DepthOfOnePrice(d, p);
    }
  }

  /** A bid side where trader A quotes one unit and trader B zero units,
      both at 100: its only price level totals one, so `delete_best`
      raises. */
  lemma ZeroQuoteRaises()
    ensures
      var h := BookAdd(BookAdd(Half(Bid, MinPrice, []), Quote("A", Bid, 100, 1, 0.0, None)).0,
                       Quote("B", Bid, 100, 0, 1.0, None)).0;
      DeleteBest(h).Err?
  {
    var a := Quote("A", Bid, 100, 1, 0.0, None);
    var b := Quote("B", Bid, 100, 0, 1.0, None);
    var h := BookAdd(BookAdd(Half(Bid, MinPrice, []), a).0, b).0;
    assert h.orders == [("A", a), ("B", b)];
    assert PricesOf(h.orders[1..][1..]) == {};
    assert DepthAt(h.orders[1..][1..], 100) == 0;
    DeleteBestSpec(h);
  }

  /** Deleting the last quote of a side leaves it without a best price or
      trader (not at `worstprice`: the rebuild resets both). */
  lemma DeleteLastLeavesNone(h: Half)
    requires |h.orders| == 1
    ensures DeleteBest(h).Ok?
    ensures BestPrice(DeleteBest(h).value.0) == None && BestTid(DeleteBest(h).value.0) == None
  {
    DeleteBestSpec(h);
    BestPriceSpec(DeleteBest(h).value.0);
  }

  // ---------------------------------------------------------------------
  // The book and the crossing step of `process_order2`
  // ---------------------------------------------------------------------

  datatype Sides = Sides(bids: Half, asks: Half)

  /** `Orderbook`: a bid side, whose worst price is the system minimum, and
      an ask side, whose worst price is the system maximum. */
  type Book = b: Sides |
    && b.bids.booktype == Bid && b.bids.worstprice == MinPrice
    && b.asks.booktype == Ask && b.asks.worstprice == MaxPrice
    witness Sides(Half(Bid, MinPrice, []), Half(Ask, MaxPrice, []))

  /** `Orderbook.__init__`: two empty sides. */
  const EmptyBook: Book := Sides(Half(Bid, MinPrice, []), Half(Ask, MaxPrice, []))

  /** `add_order`'s side choice: a bid goes to the bid side and anything else
      to the ask side. */
  function AddQuote(b: Book, q: Quote): (r: (Book, AddResult))
  {
    if q.otype == Bid then
      var (bids, res) := BookAdd(b.bids, q);
      (b.(bids := bids), res)
    else
      var (asks, res) := BookAdd(b.asks, q);
      (b.(asks := asks), res)
  }

  /** `del_order`'s deletion: a bid from the bid side, anything else from
      the ask side. */
  function DelQuote(b: Book, q: Quote): (r: Book)
  {
    if q.otype == Bid then b.(bids := BookDel(b.bids, q)) else b.(asks := BookDel(b.asks, q))
  }

  /** The side a quote of type `side` rests on, and the side it trades with. */
  function Own(b: Book, side: BookSide): Half {
    if side == Bid then b.bids else b.asks
  }

  function Other(b: Book, side: BookSide): Half {
    if side == Bid then b.asks else b.bids
  }

  /** The crossing test of `process_order2`, made once the quote has been
      added to its own side: a bid crosses when the ask side is not empty
      and the best bid is at or above the best ask; an ask, when the bid side
      is not empty and the best ask is at or below the best bid. */
  predicate Crosses(b: Book, side: BookSide)
    requires |Own(b, side).orders| > 0
  {
    BestPriceSpec(b.bids);
    BestPriceSpec(b.asks);
    if side == Bid then |b.asks.orders| > 0 && BestPrice(b.bids).value >= BestPrice(b.asks).value
    else |b.bids.orders| > 0 && BestPrice(b.asks).value <= BestPrice(b.bids).value
  }

  /** A trade: the resting counterparty and the price. */
  datatype Hit = Hit(counterparty: string, price: int)

  /** The rest of `process_order2`: when the book crosses, the best quote of
      the other side is the counterparty and sets the price; both best
      quotes are deleted, the other side's first, and either deletion may
      raise. */
  function Match(b: Book, side: BookSide): (r: Result<(Book, Option<Hit>)>)
    requires |Own(b, side).orders| > 0
  {
    if !Crosses(b, side) then Ok((b, None))
    else
      BestPriceSpec(Other(b, side));
      var other :- DeleteBest(Other(b, side));
      var own :- DeleteBest(Own(b, side));
      var price := BestPrice(Other(b, side)).value;
      if side == Bid then Ok((Sides(own.0, other.0), Some(Hit(other.1, price))))
      else Ok((Sides(other.0, own.0), Some(Hit(other.1, price))))
  }

  /** No trade and no change when the book does not cross. When it does,
      the step fails exactly when one of the two deletions raises; otherwise
      the trade is with the other side's best trader at the other side's
      best price, which is no worse for the incoming side than its own best,
      and each side loses exactly its best trader's quote. */
  lemma MatchSpec(b: Book, side: BookSide)
    requires |Own(b, side).orders| > 0
    ensures Match(b, side).Err? <==>
      Crosses(b, side) && (DeleteBestRaises(Other(b, side)) || DeleteBestRaises(Own(b, side)))
    ensures !Crosses(b, side) ==> Match(b, side) == Ok((b, None))
    ensures Crosses(b, side) && Match(b, side).Ok? ==>
      var (b', hit) := Match(b, side).value;
      var other := Other(b, side);
      && hit.Some?
      && Some(hit.value.counterparty) == BestTid(other)
      && Get(other.orders, hit.value.counterparty).Some?
      && Get(other.orders, hit.value.counterparty).value.price == hit.value.price
      && Some(hit.value.price) == BestPrice(other)
      && (side == Bid ==> hit.value.price <= BestPrice(b.bids).value)
      && (side == Ask ==> hit.value.price >= BestPrice(b.asks).value)
      && |Own(b', side).orders| == |Own(b, side).orders| - 1
      && |Other(b', side).orders| == |other.orders| - 1
      && (forall k :: Get(Other(b', side).orders, k)
                      == if k == hit.value.counterparty then None else Get(other.orders, k))
      && (forall k :: Get(Own(b', side).orders, k)
                      == if Some(k) == BestTid(Own(b, side)) then None else Get(Own(b, side).orders, k))
  {
    if Crosses(b, side) {
      DeleteBestSpec(Own(b, side));
      DeleteBestSpec(Other(b, side));
    }
  }

  /** On a book of positive quantities the crossing step never fails. */
  lemma MatchPositiveOk(b: Book, side: BookSide)
    requires |Own(b, side).orders| > 0
    requires PositiveQtys(b.bids) && PositiveQtys(b.asks)
    ensures Match(b, side).Ok?
  {
    MatchSpec(b, side);
    PositiveNeverRaises(Own(b, side));
    if Crosses(b, side) {
      PositiveNeverRaises(Other(b, side));
      DeleteBestSpec(Own(b, side));
      DeleteBestSpec(Other(b, side));
    }
  }

  // ---------------------------------------------------------------------
  // An uncrossed book stays uncrossed
  // ---------------------------------------------------------------------

  /** Every bid is below every ask. */
  ghost predicate Uncrossed(b: Book) {
    forall e, f :: e in b.bids.orders && f in b.asks.orders ==> e.1.price < f.1.price
  }

  /** With both sides quoted, the book is uncrossed exactly when the best
      bid is below the best ask. */
  lemma UncrossedBest(b: Book)
    requires |b.bids.orders| > 0 && |b.asks.orders| > 0
    ensures Uncrossed(b) <==> BestPrice(b.bids).value < BestPrice(b.asks).value
  {
    BestPriceSpec(b.bids);
    BestPriceSpec(b.asks);
    var i := EntryOfPrice(b.bids.orders, BestPrice(b.bids).value);
    var j := EntryOfPrice(b.asks.orders, BestPrice(b.asks).value);
    assert b.bids.orders[i] in b.bids.orders && b.asks.orders[j] in b.asks.orders;
    if BestPrice(b.bids).value < BestPrice(b.asks).value {
      forall e, f | e in b.bids.orders && f in b.asks.orders
        ensures e.1.price < f.1.price
      {
        var ie :| 0 <= ie < |b.bids.orders| && b.bids.orders[ie] == e;
        var jf :| 0 <= jf < |b.asks.orders| && b.asks.orders[jf] == f;
      }
    }
  }

  lemma UncrossedSubset(b: Book, b': Book)
    requires Uncrossed(b)
    requires forall e :: e in b'.bids.orders ==> e in b.bids.orders
    requires forall f :: f in b'.asks.orders ==> f in b.asks.orders
    ensures Uncrossed(b')
  {
  }

  /** On an uncrossed book, a bid that crosses once added is the only bid at
      the new best price, so the best bid trader is its submitter. */
  lemma CrossingBidIsBest(b: Book, q: Quote)
    requires Uncrossed(b) && q.otype == Bid
    requires Crosses(AddQuote(b, q).0, Bid)
    ensures BestTid(AddQuote(b, q).0.bids) == Some(q.tid)
  {
    var b1 := AddQuote(b, q).0;
    BestTidSpec(b1.bids);
    BestPriceSpec(b.asks);
    BookAddSpec(b.bids, q);
    var j := EntryOfPrice(b.asks.orders, BestPrice(b.asks).value);
    assert b.asks.orders[j] in b.asks.orders;
  }

  /** The same for an ask. */
  lemma CrossingAskIsBest(b: Book, q: Quote)
    requires Uncrossed(b) && q.otype == Ask
    requires Crosses(AddQuote(b, q).0, Ask)
    ensures BestTid(AddQuote(b, q).0.asks) == Some(q.tid)
  {
    var b1 := AddQuote(b, q).0;
    BestTidSpec(b1.asks);
    BestPriceSpec(b.bids);
    BookAddSpec(b.asks, q);
    var j := EntryOfPrice(b.bids.orders, BestPrice(b.bids).value);
    assert b.bids.orders[j] in b.bids.orders;
  }

  /** `process_order2` on an uncrossed book with a bid: if the bid trades,
      the bid deleted with the counterparty's ask is the submitter's own, so
      the bid side ends as it was less that trader's quote; either way the
      book stays uncrossed. */
  lemma BidKeepsUncrossed(b: Book, q: Quote)
    requires Uncrossed(b) && q.otype == Bid
    ensures
      var r := Match(AddQuote(b, q).0, Bid);
      r.Ok? ==>
      && Uncrossed(r.value.0)
      && (r.value.1.Some? ==> forall k :: Get(r.value.0.bids.orders, k) == if k == q.tid then None else Get(b.bids.orders, k))
  {
    var b1 := AddQuote(b, q).0;
    BookAddSpec(b.bids, q);
    MatchSpec(b1, Bid);
    var res := Match(b1, Bid);
    if res.Err? {
    } else if Crosses(b1, Bid) {
      var r := res.value;
      CrossingBidIsBest(b, q);
      DeleteBestSpec(b1.bids);
      DeleteBestSpec(b1.asks);
      forall k
        ensures Get(r.0.bids.orders, k) == if k == q.tid then None else Get(b.bids.orders, k)
      {
      }
      forall e | e in r.0.bids.orders
        ensures e in b.bids.orders
      {
        RemovedEntry(b1.bids.orders, q.tid, e);
        PutEntries(b.bids.orders, q.tid, q, e);
      }
      forall f | f in r.0.asks.orders
        ensures f in b.asks.orders
      {
        RemovedEntry(b.asks.orders, BestTid(b.asks).value, f);
      }
      UncrossedSubset(b, r.0);
    } else {
      BidRests(b, q);
    }
  }

  lemma BidRests(b: Book, q: Quote)
    requires Uncrossed(b) && q.otype == Bid
    requires !Crosses(AddQuote(b, q).0, Bid)
    ensures Uncrossed(AddQuote(b, q).0)
  {
    var b1 := AddQuote(b, q).0;
    BookAddSpec(b.bids, q);
    BestPriceSpec(b1.bids);
    BestPriceSpec(b.asks);
    forall e, f | e in b1.bids.orders && f in b1.asks.orders
      ensures e.1.price < f.1.price
    {
      PutEntries(b.bids.orders, q.tid, q, e);
      if e !in b.bids.orders {
        var ie :| 0 <= ie < |b1.bids.orders| && b1.bids.orders[ie] == e;
        var jf :| 0 <= jf < |b.asks.orders| && b.asks.orders[jf] == f;
      }
    }
  }

  /** The same for an ask. */
  lemma AskKeepsUncrossed(b: Book, q: Quote)
    requires Uncrossed(b) && q.otype == Ask
    ensures
      var r := Match(AddQuote(b, q).0, Ask);
      r.Ok? ==>
      && Uncrossed(r.value.0)
      && (r.value.1.Some? ==> forall k :: Get(r.value.0.asks.orders, k) == if k == q.tid then None else Get(b.asks.orders, k))
  {
    var b1 := AddQuote(b, q).0;
    BookAddSpec(b.asks, q);
    MatchSpec(b1, Ask);
    var res := Match(b1, Ask);
    if res.Err? {
    } else if Crosses(b1, Ask) {
      var r := res.value;
      CrossingAskIsBest(b, q);
      DeleteBestSpec(b1.asks);
      DeleteBestSpec(b1.bids);
      forall k
        ensures Get(r.0.asks.orders, k) == if k == q.tid then None else Get(b.asks.orders, k)
      {
      }
      forall e | e in r.0.asks.orders
        ensures e in b.asks.orders
      {
        RemovedEntry(b1.asks.orders, q.tid, e);
        PutEntries(b.asks.orders, q.tid, q, e);
      }
      forall f | f in r.0.bids.orders
        ensures f in b.bids.orders
      {
        RemovedEntry(b.bids.orders, BestTid(b.bids).value, f);
      }
      UncrossedSubset(b, r.0);
    } else {
      AskRests(b, q);
    }
  }

  lemma AskRests(b: Book, q: Quote)
    requires Uncrossed(b) && q.otype == Ask
    requires !Crosses(AddQuote(b, q).0, Ask)
    ensures Uncrossed(AddQuote(b, q).0)
  {
    var b1 := AddQuote(b, q).0;
    BookAddSpec(b.asks, q);
    BestPriceSpec(b1.asks);
    BestPriceSpec(b.bids);
    forall e, f | e in b1.bids.orders && f in b1.asks.orders
      ensures e.1.price < f.1.price
    {
      PutEntries(b.asks.orders, q.tid, q, f);
      if f !in b.asks.orders {
        var ie :| 0 <= ie < |b.bids.orders| && b.bids.orders[ie] == e;
        var jf :| 0 <= jf < |b1.asks.orders| && b1.asks.orders[jf] == f;
      }
    }
  }

  /** Deleting a quote keeps the book uncrossed. */
  lemma DelKeepsUncrossed(b: Book, q: Quote)
    requires Uncrossed(b)
    ensures Uncrossed(DelQuote(b, q))
  {
    var b' := DelQuote(b, q);
    forall e | e in b'.bids.orders
      ensures e in b.bids.orders
    {
      if q.otype == Bid && Get(b.bids.orders, q.tid) != None {
        RemovedEntry(b.bids.orders, q.tid, e);
      }
    }
    forall f | f in b'.asks.orders
      ensures f in b.asks.orders
    {
      if q.otype != Bid && Get(b.asks.orders, q.tid) != None {
        RemovedEntry(b.asks.orders, q.tid, f);
      }
    }
    UncrossedSubset(b, b');
  }

  lemma EmptyBookUncrossed()
    ensures Uncrossed(EmptyBook) && |EmptyBook.bids.orders| == 0 && |EmptyBook.asks.orders| == 0
  {
  }

  // ---------------------------------------------------------------------
  // What `publish_lob` shows of a side
  // ---------------------------------------------------------------------

  /** The `best`, `worst`, `n` and `lob` entries `publish_lob` gives for a
      side. */
  datatype SideData = SideData(best: Option<int>, worst: int, n: nat, lob: seq<PriceQty>)

  function SideView(h: Half): SideData {
    SideData(BestPrice(h), h.worstprice, |h.orders|, LobAnon(h.orders))
  }

  /** A published side lists one entry per quoted price in ascending order,
      each with the total quantity quoted at it; `n` counts the quotes; the
      best price is absent exactly when `n` is zero, and is otherwise the
      last entry's price for bids and the first entry's for asks. */
  lemma SideViewSpec(h: Half)
    ensures var v := SideView(h);
      && StrictlyAscending(v.lob)
      && (forall i :: 0 <= i < |v.lob| ==> v.lob[i].qty == DepthAt(h.orders, v.lob[i].price))
      && AnonPrices(v.lob) == PricesOf(h.orders)
      && v.n == |h.orders|
      && (v.best.None? <==> v.n == 0)
      && (v.best.Some? && h.booktype == Bid ==> v.best.value == v.lob[|v.lob| - 1].price)
      && (v.best.Some? && h.booktype == Ask ==> v.best.value == v.lob[0].price)
  {
    LobAnonEntries(h.orders);
    LobAnonSpec(h.orders);
  }
}
