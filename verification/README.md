# Bristol Stock Exchange matching engines in Dafny

This project models the matching core of the Bristol Stock Exchange (BSE), a single-instrument limit-order-book exchange used for trading-agent experiments. It covers three generations of the engine, the message records they exchange with traders, and the traders' bookkeeping. Everything is written as immutable datatypes and pure functions. A Python `sys.exit` or a raised exception becomes an `Err` of the `Result` type in `Wrappers`: `Exit(message)` for `sys.exit` and `Crash(message)` for an exception. The error paths of the code therefore appear in the model next to the happy paths.

## Modules

- `Wrappers`, `Dicts`, `Depth`, `Strings`: shared types and helpers.
  - `Option` and `Result`.
  - Python dictionaries modelled as association lists with unique keys, kept in insertion order.
  - The anonymised `(price, qty)` pair.
  - String ordering.
- `Messages`: the `Assignment`, `Order` and `Exch_msg` records of `BSE2_msg_classes.py`. Also the order types, styles and event kinds.
- `Bse2Lob`: `build_lob` of BSE2.
  - Price levels, best first.
  - Each level's queue, sorted by `[time, qty, tid, oid]`.
  - The anonymised view.
- `Bse2Half`: `Orderbook_half` of BSE2.
  - `book_add`, `book_CAN`.
  - `book_take`, a recursive walk over the levels, decreasing on the entries left.
- `Bse2Venue`: `Orderbook` of BSE2.
  - `midprice`, `microprice`, `add_lim_order`.
  - `process_order_CAN`, `process_order_take`, `process_order_LIM`, `process_order_pending`.
- `Bse2Exchange`: `Exchange` of BSE2.
  - Lazy trader registration, order ids, lit/dark routing by size.
  - The fee ledger, the tape and `tape_update`.
  - `process_order`, `publish_lob`.
  - A whole session (`Run`) and its invariants.
- `Bse1Book`: the order book that BSE 1.2 (`BSE.py`) and BSE 1.3 (`snashall2019.py`) share.
  - One quote per trader per side, keyed by trader id.
  - `build_lob`/`anonymize_lob`, `book_add`, `book_del`, `delete_best`.
  - The crossing test and match of `process_order2`.
- `Bse12`, `Bse13`: the two 1.x `Exchange` classes (`add_order`, `del_order`, `process_order2`, `publish_lob`).
- `Traders`: the BSE2 `Trader` bookkeeping.
  - `add_cust_order`, `del_cust_order`, `revise_cust_order`, `del_exch_order`.
  - `bookkeep`, with its profit accounting.
- `Strategies`: the quote rules of `Trader_Giveaway.getorder` and `Trader_Shaver.getorder`.

Constants:

| Constant | Value | Source |
|---|---|---|
| Bid side worst price (BSE2 and BSE 1.x) | 1 | `ZhenZhang/source/BSE2.py` line 68, `BSE.py` line 53 and `snashall2019.py` line 53 |
| Ask side worst price, BSE2 | 200 | `ZhenZhang/source/BSE2.py` line 69, used at lines 514-515 |
| Ask side worst price, BSE 1.x | 1000 | `BSE.py` line 54 and `snashall2019.py` line 54 |
| Block size at which BSE2 routes to the dark pool | 300 | `ZhenZhang/source/BSE2.py` line 900 |

Where the code and its comments disagree, the model follows the code:
- The tape summary is not volume-weighted, although its comment says so.
- BSE 1.2 uses `min` for the bid side in `delete_best`, but `build_lob` then recomputes the best price at once.
- In BSE 1.3, `delete_best` falls back to `worstprice` when a side empties. The `build_lob` call on the next line overwrites that with `None`. So an emptied side has no best price (`Bse1Book.DeleteLastLeavesNone`), not the worst price.

## Model

| member | source | states |
|---|---|---|
| Messages.NewAssignment | ZhenZhang/source/BSE2_msg_classes.py:5-14 | An assignment keeps its customer, trader, type, style, price, quantity, time, end time and assignment id exactly as given |
| Messages.NewOrder | ZhenZhang/source/BSE2_msg_classes.py:28-38 | An order keeps its eight arguments as given; the trader's reference and the style parameters start out empty |
| Messages.NewExchMsg | ZhenZhang/source/BSE2_msg_classes.py:48-55 | An exchange message keeps trader id, order id, event, transactions, revised order, fee and balance as given |
| Bse2Lob.BuildLobSpec | ZhenZhang/source/BSE2.py:158-201 | After `build_lob`: levels are strictly best-first (bids descending, asks ascending); every queue is non-empty and sorted by (time, qty, tid, oid); the entries are exactly the live orders; the lob is empty only for an empty side; `lob_anon` has one (price, total qty) pair per level, in level order, whose qty is the sum of the live orders at that price |
| Bse2Lob.FlattenOrdered | ZhenZhang/source/BSE2.py:180-190 | Reading the levels front to back visits entries in price-time priority: a strictly better price first, and at one price the queue order |
| Bse2Half.NewHalfBook | ZhenZhang/source/BSE2.py:80-119 | A new side has the given side and worst price, an empty lob and anonymised lob, and no resting or pending orders |
| Bse2Half.BookAdd | ZhenZhang/source/BSE2.py:217-224 | `book_add` stores the order under its order id, replacing any order there; every other order is unchanged; a new id adds one order |
| Bse2Half.BookCan | ZhenZhang/source/BSE2.py:227-260 | `book_CAN` succeeds exactly when the id is live. It removes only that order. It returns one CAN message for the requester and one CAN tape event carrying the removed order's quantity. An absent id is a `sys.exit` |
| Bse2Half.AddThenCancel | ZhenZhang/source/BSE2.py:217-260 | Cancelling an order just added under a fresh id restores the side exactly |
| Bse2Half.BookTake | ZhenZhang/source/BSE2.py:310-351 | `book_take` fails the order with one FAIL message, no tape events and an unchanged book in three cases: an empty book; an FOK/AON order without enough depth at equal or better prices; an IOC order with no such depth. Otherwise an order type other than Bid/Ask is fatal. Only the stored orders ever change |
| Bse2Half.TakePriority | ZhenZhang/source/BSE2.py:359-471 | The i-th trade of a take is with the i-th entry in price-time priority, at that entry's level price, for at most its quantity. Every trade but the last consumes its entry whole |
| Bse2Half.TakeConserves | ZhenZhang/source/BSE2.py:403-490 | A take never trades more than the order's quantity. With the remainder taken as the quantity minus what traded: nothing traded ends in FAIL; a remainder strictly between gives PART with all the transactions and the order revised to the remainder; zero gives the taker a FILL with all the transactions |
| Bse2Half.TakeIocWithinLimit | ZhenZhang/source/BSE2.py:359-372 | Every trade of an IOC order is at its limit price or better |
| Bse2Half.TakeAllOrNothing | ZhenZhang/source/BSE2.py:316-331 | An FOK/AON order never fails the program. With too little depth it gets FAIL and the book is untouched; otherwise its whole quantity trades and it gets FILL |
| Bse2Half.TakeFillsWhole | ZhenZhang/source/BSE2.py:403-444 | With enough depth at acceptable prices, an FOK/AON order trades its whole quantity and its FILL carries every transaction |
| Bse2Half.ConsumeResting | ZhenZhang/source/BSE2.py:403-444 | A resting order consumed in part keeps its id with its quantity reduced and gets PART with that revised order. One consumed whole is removed and gets FILL. No other stored order changes |
| Bse2Half.TakeRetains | ZhenZhang/source/BSE2.py:359-498 | A take never adds an order to the side it walks and never changes a resting order's price. A resting order it did not trade with keeps its quantity. Of those it traded with, in priority order, all but the last are removed and the last is removed or reduced by the traded quantity. The side's total quantity falls by exactly the quantity traded |
| Bse2Half.TakeWithinButLast | ZhenZhang/source/BSE2.py:362-372 | For every style but IOC, every trade of a take except the last is at the order's price or better, because the loop re-checks the front level's price before each further step. This holds for MKT orders too, whose first price check is skipped. A MKT order with a positive quantity against a non-empty side of Bid/Ask type trades at least once |
| Bse2Half.BookTakeAsWritten | ZhenZhang/source/BSE2.py:324-331 | The code as written raises exactly on a non-empty book when an FOK/AON order lacks depth, and otherwise agrees with the corrected `BookTake` |
| Bse2Half.FokShortfallCrashes | ZhenZhang/source/BSE2.py:328 | An FOK order short of depth crashes the code as written, where the corrected code sends FAIL and leaves the book alone |
| Bse2Venue.NewVenue | ZhenZhang/source/BSE2.py:512-519 | A new pool has empty sides: bids with worst price 1, asks with worst price 200; its tape and last transaction are empty |
| Bse2Venue.Midprice | ZhenZhang/source/BSE2.py:531-542 | The midprice exists exactly when one side has a positive quantity and the other is absent, or both are positive |
| Bse2Venue.MidpriceHalfway | ZhenZhang/source/BSE2.py:531-542 | With both sides quoted and bid ≤ ask, the midprice is halfway between them |
| Bse2Venue.Microprice | ZhenZhang/source/BSE2.py:545-550 | The microprice exists exactly when both quantities are positive |
| Bse2Venue.MicropriceBetween | ZhenZhang/source/BSE2.py:545-550 | The microprice of an uncrossed quote lies between the bid and the ask |
| Bse2Venue.MicropriceEvenQueues | ZhenZhang/source/BSE2.py:545-550 | With equal quantities on both sides the microprice is the midprice rounded down |
| Bse2Venue.AddLimOrder | ZhenZhang/source/BSE2.py:553-564 | `add_lim_order` changes only the order's own side: the order is stored under its id, every other order is kept, and the side's lob is non-empty |
| Bse2Venue.BestAfterAdd | ZhenZhang/source/BSE2.py:553-564 | After the add, the best price is the new order's price or the old best price, whichever is better |
| Bse2Venue.ProcessOrderCan | ZhenZhang/source/BSE2.py:567-586 | A cancel succeeds exactly when the type is Bid/Ask and the id is live on that side. It removes that order only and answers with one CAN message and one CAN event. Anything else is an exit |
| Bse2Venue.ProcessOrderTake | ZhenZhang/source/BSE2.py:614-629 | A take touches only the opposite side, always answers with messages and events, and is fatal only for a type other than Bid/Ask |
| Bse2Venue.ProcessOrderLim | ZhenZhang/source/BSE2.py:632-670 | A LIM order comes back silent exactly when it does not cross; it then changes only its own side, and a crossing order changes only the opposite side |
| Bse2Venue.LimRests | ZhenZhang/source/BSE2.py:632-670 | On an uncrossed pool, a LIM order that does not cross is stored on its own side, nothing is reported, and the pool stays uncrossed |
| Bse2Venue.LimCrossesTakes | ZhenZhang/source/BSE2.py:632-670 | A crossing LIM order is treated as IOC. Its own side is untouched, every trade is at its limit or better, and it is reported as an IOC take |
| Bse2Venue.ProcessOrderPending | ZhenZhang/source/BSE2.py:673-701 | LOO/MOO orders are appended to their side's on-open list and LOC/MOC to its on-close list. Nothing else changes, and the response holds `None` twice. Other styles or types are an exit |
| Bse2Venue.RestThenCancel | ZhenZhang/source/BSE2.py:567-670 | Cancelling a freshly rested LIM order gives back the pool exactly, with one CAN message and a CAN event for its full quantity |
| Bse2Venue.TakeKeepsUncrossed | ZhenZhang/source/BSE2.py:614-629 | A take leaves an uncrossed pool uncrossed |
| Bse2Venue.CanKeepsUncrossed | ZhenZhang/source/BSE2.py:567-586 | A cancel leaves an uncrossed pool uncrossed |
| Bse2Venue.LimKeepsUncrossed | ZhenZhang/source/BSE2.py:632-670 | A LIM order, resting or crossing, leaves an uncrossed pool uncrossed |
| Bse2Exchange.NewExchange | ZhenZhang/source/BSE2.py:707-714 | A new exchange has a lit and a dark pool named after it, both empty. The tape, the traders and the last transaction are empty. Order ids start at 0, and the exchange is closed |
| Bse2Exchange.Register | ZhenZhang/source/BSE2.py:890-896 | A trader seen for the first time gets a record with a zero balance. A known trader's record is left alone, and no other record changes |
| Bse2Exchange.Dispatch | ZhenZhang/source/BSE2.py:942-990 | Dispatch succeeds exactly for LIM, GFD, MKT, FOK, IOC, LOO, MOO, LOC and MOC orders of type Bid/Ask. It changes one side of the pool only |
| Bse2Exchange.Route | ZhenZhang/source/BSE2.py:899-990 | A cancel succeeds exactly when its order is live in the pool its quantity selects. Any other order succeeds exactly when its style is supported and its type is Bid/Ask |
| Bse2Exchange.RouteSpec | ZhenZhang/source/BSE2.py:890-944 | Routing registers the trader and consumes one order id for every order but a cancel. Orders under 300 go to the lit pool and the rest to the dark pool; the other pool is untouched. The tape is unchanged |
| Bse2Exchange.RecordEventsSpec | ZhenZhang/source/BSE2.py:824-838 | Recording events appends them to the tape in order. The last transaction becomes the latest trade among them, if any |
| Bse2Exchange.BookEvents | ZhenZhang/source/BSE2.py:1001-1069 | Booking a response charges the submitter exactly the fees on its own messages and leaves every other trader as it was. The events are appended to the tape, and the messages and the summary are handed back |
| Bse2Exchange.HandleResponseSpec | ZhenZhang/source/BSE2.py:1001-1070 | Booking never touches the pools or the order id; the old tape is a prefix of the new one. A response without events books nothing and returns nothing |
| Bse2Exchange.SummaryWithinPrices | ZhenZhang/source/BSE2.py:1050-1068 | The corrected summary price is a volume-weighted average, so it lies within the range of the traded prices |
| Bse2Exchange.UnitTradesAgree | ZhenZhang/source/BSE2.py:1050-1068 | When every trade is for one unit, as in BSE 1.x, the summary as written and the corrected one coincide |
| Bse2Exchange.SummaryAsWrittenHalvesPrice | ZhenZhang/source/BSE2.py:1057 | One trade of 2 units at 100: the summary as written reports price 50, the corrected one 100 |
| Bse2Exchange.PendingBookingCrashes | ZhenZhang/source/BSE2.py:1009 | Booking a pending-style response raises as written, while the corrected booking hands back nothing |
| Bse2Exchange.ProcessOrder | ZhenZhang/source/BSE2.py:879-1071 | `process_order` succeeds exactly when routing does |
| Bse2Exchange.ProcessOrderSpec | ZhenZhang/source/BSE2.py:879-1071 | After `process_order` the trader is registered and the order id advanced by one for every order but a cancel. The tape only grows, the pool not routed to is untouched, and neither pool's own last-transaction record changes |
| Bse2Exchange.ProcessOrderAsWritten | ZhenZhang/source/BSE2.py:1001-1009 | The code as written never succeeds on a pending-style response. On a silent response it agrees with the corrected `process_order` |
| Bse2Exchange.ProcessOrderOutcome | ZhenZhang/source/BSE2.py:917-990 | A supported style of type Bid/Ask always succeeds, and a cancel succeeds exactly when its order is live. XXX, AON, OCO, OSO, ICE and unknown styles always fail: XXX with an AttributeError while either pool holds an order and a TypeError otherwise; AON with an AttributeError on `order.oid` on a depth shortfall and on `.event` otherwise |
| Bse2Exchange.PendingOrderCrashes | ZhenZhang/source/BSE2.py:963-1009 | A LOO/MOO/LOC/MOC order of type Bid/Ask crashes the exchange as written and is accepted by the corrected one |
| Bse2Exchange.ProcessOrderKeepsHealthy | ZhenZhang/source/BSE2.py:879-1071 | No order leaves either pool crossed or with its sides swapped |
| Bse2Exchange.ProcessOrderKeepsFresh | ZhenZhang/source/BSE2.py:935-936 | Order ids stay fresh: every live order in either pool has an id below the counter, so the next id handed out is not in use |
| Bse2Exchange.RunKeeps | ZhenZhang/source/BSE2.py:879-1071 | Over a whole session of orders both pools keep their sides the right way round and stay uncrossed, ids stay fresh, and neither pool's own last-transaction record changes |
| Bse2Exchange.NewExchangeHealthy | ZhenZhang/source/BSE2.py:707-714 | A new exchange satisfies the session invariants |
| Bse2Exchange.PyTailSpec | ZhenZhang/source/BSE2.py:1107-1110 | A positive tape depth publishes the last d events (all when fewer). Depth 0 publishes the whole tape. A negative depth drops the first -d events |
| Bse2Exchange.PublishedBest | ZhenZhang/source/BSE2.py:1078-1098 | The published best bid is the highest live lit bid and the best ask the lowest live lit ask; each is absent exactly when its side is empty |
| Bse2Exchange.PublishedPricesInSpread | ZhenZhang/source/BSE2.py:1112-1119 | With both lit sides quoted and uncrossed, the published midprice and microprice lie between the best bid and the best ask |
| Bse2Exchange.LastTradePublished | ZhenZhang/source/BSE2.py:1100-1102 | After a response with trades is booked, the corrected view publishes its latest trade, while the view as written still shows none |
| Bse2Exchange.BookedLastTrade | ZhenZhang/source/BSE2.py:824-838 | Booking a response that traded makes its latest trade the exchange's last transaction and leaves the lit pool as it was |
| Bse2Exchange.LitNeverRecords | ZhenZhang/source/BSE2.py:1100-1102 | In any session started on a new exchange, the view as written never publishes a last transaction |
| Bse1Book.LobAnonSpec | BSE.py:95-133 | `lob_anon` lists each quoted price once, strictly ascending, with the total quantity quoted at it; it is empty only for an empty side |
| Bse1Book.BestPriceSpec | BSE.py:123-133 | The best bid is the highest quoted bid price and the best ask the lowest ask price; absent exactly when the side is empty |
| Bse1Book.BestTidSpec | BSE.py:123-133 | The best trader exists exactly when the side is non-empty, and holds a quote at the best price |
| Bse1Book.QueueSpec | BSE.py:109-121 | A quoted price has a non-empty queue, and every queue row comes from a quote at that price |
| Bse1Book.BookAddSpec | BSE.py:136-143 | A trader's new quote replaces its old one on that side. Other traders' quotes are unchanged. The result is Addition exactly when the trader had no quote there (the 1.3 result, snashall2019.py 149-155) |
| Bse1Book.BookDelSpec | BSE.py:146-153 | `book_del` removes exactly the trader's quote, and is a no-op exactly when it has none |
| Bse1Book.DeleteBestSpec | BSE.py:156-182 | `delete_best` raises ValueError exactly when the best level totals one unit, is the side's only level and holds more than one quote, because the next best price is then taken over no prices. Otherwise it returns the trader at the head of the best level, removes exactly that quote, and leaves one quote fewer |
| Bse1Book.PositiveNeverRaises | BSE.py:156-182 | On a side whose quotes all have a positive quantity, `delete_best` never raises |
| Bse1Book.ZeroQuoteRaises | BSE.py:162-168 | A bid side with quotes of 1 and 0 units at the same price makes `delete_best` raise |
| Bse1Book.DeleteLastLeavesNone | snashall2019.py:172-201 | Deleting the last quote of a side leaves it with no best price and no best trader |
| Bse1Book.MatchSpec | BSE.py:238-264 | The crossing step raises exactly when the book crosses and `delete_best` raises on either side. There is no trade exactly when the book does not cross. Otherwise the trade is at the other side's best price, with its best trader, and each side loses exactly its best quote |
| Bse1Book.MatchPositiveOk | BSE.py:238-264 | With positive quantities on both sides the crossing step never raises, and both sides keep positive quantities |
| Bse1Book.UncrossedBest | BSE.py:241-258 | A book with both sides quoted is uncrossed exactly when the best bid is below the best ask |
| Bse1Book.BidKeepsUncrossed | BSE.py:240-251 | A bid on an uncrossed book leaves it uncrossed, and when it trades it is the submitter's own bid that leaves the book |
| Bse1Book.AskKeepsUncrossed | BSE.py:252-262 | An ask on an uncrossed book leaves it uncrossed, and when it trades it is the submitter's own ask that leaves the book |
| Bse1Book.CrossingBidIsBest | BSE.py:238-251 | On an uncrossed book, a new bid that crosses is itself the best bid, so `delete_best` removes the submitter's bid |
| Bse1Book.CrossingAskIsBest | BSE.py:252-262 | On an uncrossed book, a new ask that crosses is itself the best ask |
| Bse1Book.BidRests | BSE.py:238-251 | A bid that does not cross rests and leaves the book uncrossed |
| Bse1Book.AskRests | BSE.py:252-262 | An ask that does not cross rests and leaves the book uncrossed |
| Bse1Book.EmptyBookUncrossed | BSE.py:190-196 | A new exchange's book has no quotes on either side and is uncrossed |
| Bse1Book.DelKeepsUncrossed | BSE.py:146-153 | Deleting a quote keeps the book uncrossed |
| Bse1Book.SideViewSpec | BSE.py:295-307 | A published side lists prices ascending with their total quantities and counts the quotes. Its best price is absent exactly when it has none; otherwise it is the last entry for bids and the first for asks |
| Bse12.DelOrderKeepsUncrossed | BSE.py:216-228 | Cancelling a quote keeps an uncrossed book uncrossed |
| Bse12.AddOrderSpec | BSE.py:201-213 | `add_order` leaves the trader's quote on the side its type selects; every other quote and the other side are unchanged |
| Bse12.DelOrderAsWritten | BSE.py:216-228 | `del_order` as written agrees with the intended deletion whenever it does not raise |
| Bse12.DelOrderAsWrittenFails | BSE.py:216-228 | `del_order` as written raises exactly when the side it deletes from is left empty |
| Bse12.DelOnlyBidCrashes | BSE.py:220-222 | Cancelling the only bid on the book crashes BSE 1.2 |
| Bse12.DelOrderSpec | BSE.py:216-228 | The intended `del_order` removes the trader's quote, keeps every other quote and the other side, and leaves an emptied side without a best price or trader |
| Bse12.ProcessOrder2 | BSE.py:231-280 | `process_order2` fails exactly for an order type other than Bid/Ask, or when the added quote crosses the book and `delete_best` raises on either side |
| Bse12.ProcessOrder2Positive | BSE.py:231-280 | On a book with positive quantities, a Bid/Ask quote with a positive quantity never fails and the book keeps positive quantities |
| Bse12.ZeroQuoteCrashes | BSE.py:162-168 | Bids of 1 and 0 units at 100, then an ask at 90, make `process_order2` raise |
| Bse12.ProcessOrder2Spec | BSE.py:231-280 | When it succeeds: without a cross the quote rests, nothing is returned and the tape is unchanged. With one, one record is appended and returned: the other side's best price, its best trader as `party1`, the submitter as `party2`, the submitted quantity. Each side loses one quote |
| Bse12.ProcessOrder2KeepsUncrossed | BSE.py:231-280 | On an uncrossed book `process_order2` keeps it uncrossed, and a trade removes the submitter's own quote |
| Bse12.PublishLobSpec | BSE.py:295-310 | The published best bid is the highest bid and the best ask the lowest ask, absent exactly for an empty side. Each published side lists its prices strictly ascending, each with the total quantity quoted at it |
| Bse13.AddOrderSpec | snashall2019.py:221-237 | The quote is stored with the returned id. The response is Addition exactly when the trader had no quote on that side, and then the side grows by one |
| Bse13.AddOrderQids | snashall2019.py:221-224 | Quote ids stay below the counter, and the id just stamped was held by no quote on the book |
| Bse13.DelOrder | snashall2019.py:240-268 | `del_order` fails exactly for an order type other than Bid/Ask and never changes the quote counter |
| Bse13.DelOrderSpec | snashall2019.py:240-268 | `del_order` appends exactly one Cancel record and deletes as BSE 1.2 intends; an emptied side has no best price |
| Bse13.DelOrderQids | snashall2019.py:240-268 | Deleting keeps every quote id below the counter |
| Bse13.ProcessOrder2 | snashall2019.py:272-329 | `process_order2` fails exactly for an order type other than Bid/Ask, or when the added quote crosses the book and `delete_best` raises on either side; otherwise it uses one quote id |
| Bse13.ProcessOrder2AsInBse12 | snashall2019.py:272-329 | BSE 1.3 fails exactly when BSE 1.2 does, and otherwise trades exactly as BSE 1.2: the same book and the same trade, now tagged as a Trade |
| Bse13.ProcessOrder2Qids | snashall2019.py:272-329 | `process_order2` keeps every quote id below the counter |
| Bse13.PublishLob | snashall2019.py:344-364 | Each best price is absent exactly when its side's quote count is zero |
| Bse13.PublishLobAsInBse12 | snashall2019.py:344-364 | BSE 1.3 publishes what BSE 1.2 does, plus the next quote id and the tape |
| Traders.NewTraderWithinLimit | ZhenZhang/source/BSE_trader_agents.py:17-30 | A new trader works no assignments, holds no quotes, and is within its limit of customer assignments |
| Traders.AddCustOrderSpec | ZhenZhang/source/BSE_trader_agents.py:42-55 | The new assignment is appended and the oldest dropped when at the limit, so the limit holds. The list is a suffix of the old list plus the new assignment, which comes last |
| Traders.AddCustOrder | ZhenZhang/source/BSE_trader_agents.py:42-55 | The response is LOB_Cancel exactly when the trader has a live quote; only the assignments change |
| Traders.DelCustOrder | ZhenZhang/source/BSE_trader_agents.py:59-68 | Exactly the assignments with the given id are removed; the rest keep their order |
| Traders.DelCustOrderAbsent | ZhenZhang/source/BSE_trader_agents.py:59-68 | Deleting an absent id changes nothing, and deleting twice is deleting once |
| Traders.ReviseSpec | ZhenZhang/source/BSE_trader_agents.py:72-85 | Revising changes only the quantity of the matching assignments, to the given quantity, and leaves every other assignment as it was |
| Traders.DelAfterRevise | ZhenZhang/source/BSE_trader_agents.py:59-85 | Deleting an assignment after revising it is the same as deleting it directly |
| Traders.ReviseTwice | ZhenZhang/source/BSE_trader_agents.py:72-85 | Revising twice is the same as revising once with the later quantity |
| Traders.DelExchOrder | ZhenZhang/source/BSE_trader_agents.py:93-102 | Exactly the quotes with the given order id are removed; the rest keep their order |
| Traders.FilterSpec | ZhenZhang/source/BSE_trader_agents.py:59-68 | The list-rebuilding loop keeps exactly the elements that pass, in their original order |
| Traders.FindQuote | ZhenZhang/source/BSE_trader_agents.py:142-150 | The intended quote search finds a quote with the message's order id exactly when one is live |
| Traders.FindQuoteAsWrittenMissesSecond | ZhenZhang/source/BSE_trader_agents.py:142-146 | The search as written misses a matching quote that is not first in the list |
| Traders.FindAssignment | ZhenZhang/source/BSE_trader_agents.py:152-157 | The assignment search finds one with the quote's reference exactly when one exists |
| Traders.SettleOk | ZhenZhang/source/BSE_trader_agents.py:135-184 | Settling the transactions succeeds exactly when the quote and its assignment are found, the trader's age is non-zero, and no transaction loses money |
| Traders.SettleValue | ZhenZhang/source/BSE_trader_agents.py:135-184 | A successful settlement adds each transaction's profit to the balance, (limit − price)·qty for a bid and (price − limit)·qty for an ask, and counts one trade per transaction |
| Traders.BookkeepCan | ZhenZhang/source/BSE_trader_agents.py:114-125 | A CAN message removes exactly the cancelled quote; balance and assignments are untouched and the message is logged |
| Traders.BookkeepRecordsOnly | ZhenZhang/source/BSE_trader_agents.py:105-213 | An ACK or FAIL message is only logged with the current balance |
| Traders.BookkeepNoTransactions | ZhenZhang/source/BSE_trader_agents.py:135-190 | A FILL or PART without transactions raises, since the quote variable is never bound |
| Traders.BookkeepFill | ZhenZhang/source/BSE_trader_agents.py:192-200 | A FILL is booked exactly when settlement succeeds. The profit is added and the trades counted. Both the assignment and the quote are deleted, and the message is logged with the new balance |
| Traders.BookkeepPart | ZhenZhang/source/BSE_trader_agents.py:202-211 | A PART is booked exactly when settlement succeeds and the message has a revised order. It revises the assignment's quantity and keeps the quote, except that a partly filled IOC also drops its quote |
| Traders.BookkeepNeverLoses | ZhenZhang/source/BSE_trader_agents.py:179-184 | Bookkeeping that succeeds never lowers the balance |
| Traders.BookkeepKeepsLimit | ZhenZhang/source/BSE_trader_agents.py:105-213 | Bookkeeping keeps the trader within its limit of assignments |
| Traders.BookkeepAsWrittenAgrees | ZhenZhang/source/BSE_trader_agents.py:142-146 | With at most one live quote, which is every trader's limit (`max_quotes` is 1), `bookkeep` as written and corrected agree |
| Traders.BookkeepAsWrittenMissesFill | ZhenZhang/source/BSE_trader_agents.py:142-150 | A FILL for a trader's second quote stops `bookkeep` as written, where the corrected one books a profit of 5 |
| Strategies.GetOrderGiveaway | ZhenZhang/source/BSE_trader_agents.py:234-249 | Giveaway quotes exactly when it has an assignment, and records the quote as its last one |
| Strategies.GiveawayNeverLoses | ZhenZhang/source/BSE_trader_agents.py:238-247 | The Giveaway quote has its assignment's type and quantity, and any execution at the quote's price or better makes a non-negative profit against the assignment's limit |
| Strategies.GetOrderShaver | ZhenZhang/source/BSE_trader_agents.py:286-313 | Shaver quotes exactly when it has an assignment, and records the quote as its last one |
| Strategies.ShaverShaves | ZhenZhang/source/BSE_trader_agents.py:297-310 | A Shaver bid is the largest price at most its limit and at most one above the best bid; a Shaver ask is the smallest price at least its limit and at least one below the best ask. On an empty side it quotes that side's worst price. Type and quantity are the assignment's |
| Strategies.ShaverOnPublished | ZhenZhang/source/BSE_trader_agents.py:297-310 | On data the exchange publishes, a Shaver bid either sits at its limit or outbids every live lit bid; an ask likewise undercuts every live lit ask or sits at its limit |

## Left out

- Verbose printing, `sys.stdout.flush`, and the file output of `tape_dump`, `dump_tape` and `trade_stats` are left out. They do not change the state.
- The experiment harness (`customer_orders`, `populate_market`, `market_session`, `__main__`) is left out. It draws random schedules and drives sessions.
- Trading strategies other than Giveaway and Shaver are left out: ZIC, ZIP, AA, the MLOFI variants and the other agent files. They are floating-point and random heuristics.
- `profitpertime` is left out because it is a float ratio. Only the zero-age division error it can raise is modelled.
- Orders are values, so the in-place updates Python makes to the caller's order object are not modelled as such: `process_order` stamping `order.orderid` (BSE2.py line 935), a crossing LIM order's style becoming IOC (lines 653 and 662), `book_take` writing the remaining quantity back into the taker (line 489) and reducing the resting order (line 427), and BSE 1.3 stamping `order.qid` (snashall2019.py line 223). `Route` stamps its own copy and does not hand it back, so the model does not show how the trader's quote, which in Python is the same object, learns its exchange id or its IOC style; `Traders` takes the quote's order id and style as given.
- The trader's `ttype`, `willing`, `able` and `max_quotes` fields, and the session's enforcement of `max_quotes`, are left out.
- BSE2's `best_price` attribute is not modelled. It is written but never read, and on the bid side it holds the worst bid. The published best price is the head of `lob_anon`, which is what is modelled. BSE2's `lob_depth` is left out for the same reason.
- In the XXX style, `process_order_XXX` iterates dictionary keys as orders, and `consolidate_responses` indexes the lists it is given with a string. An AON order fails inside `book_take` on a depth shortfall, and otherwise when the retry logic reads `.event` off the message list. OCO/OSO call a missing pool method or exit, and ICE calls a missing pool method. Each of these branches is modelled only as a failure of `process_order`, not as an operation.
- `mkt_open`, `mkt_close` and `consolidate_responses` are not modelled. The pending lists are filled but never executed.
- Python 2 dictionaries iterate in an unspecified order; the model fixes insertion order. In BSE2 nothing depends on it, because `build_lob` sorts. In BSE 1.x the order of a level's queue, and so which trader at the best price is hit, follows that choice. The properties proved say only "a quote at the best price".
- BSE 1.x quantities are any integers, not only 1. When a level's total is 1, `delete_best` drops the whole level and recomputes the best price from the remaining levels; if that level was the only one but held several quotes (some of zero or negative quantity), this raises ValueError, which the model returns as a failure. With positive quantities, as the traders always quote, it never happens.
- The traders' `sys.exit` calls in `bookkeep` raise a NameError, because `BSE_trader_agents.py` never imports `sys`. The model records that NameError as the failure.
- Bse1Book.DeleteBest: requires a non-empty side. On an empty side Python raises a KeyError, but `process_order2` calls it only after a cross, when both sides hold quotes.
- Bse2Half.BookTake: the fee of every message is 0, as the code fixes it. Balances in messages are 0.
- Traders.BookkeepFill: states membership of the remaining assignments and quotes, not their order. `Traders.DelCustOrder` and `Traders.DelExchOrder` state the order.

## Findings

| source | as written | input that shows it | evidently intended | confidence | as-written member | corrected member |
|---|---|---|---|---|---|---|
| ZhenZhang/source/BSE2.py:328 | The FOK/AON shortfall reply reads `order.oid`, an attribute `Order` does not have, so it raises AttributeError | An FOK bid for 5 against one ask of 1 | A FAIL message with `order.orderid`, the book untouched | not executed | Bse2Half.FokShortfallCrashes | Bse2Half.TakeAllOrNothing |
| ZhenZhang/source/BSE2.py:1057 | The summary's total cost adds prices, not price × quantity | One trade of 2 units at 100 is summarised at price 50 | The volume-weighted average price (100) | not executed | Bse2Exchange.SummaryAsWrittenHalvesPrice | Bse2Exchange.SummaryWithinPrices |
| ZhenZhang/source/BSE2.py:1009 | A pending-style response has `None` messages; iterating it raises TypeError | Any LOO bid | The order waits on the on-open list and nothing is booked | not executed | Bse2Exchange.PendingOrderCrashes | Bse2Exchange.PendingBookingCrashes |
| ZhenZhang/source/BSE2.py:1100-1102 | `publish_lob` reads the lit pool's last transaction, but `tape_update` records it on the exchange | Any session that trades, then `publish_lob` | The latest trade is published | not executed | Bse2Exchange.LitNeverRecords | Bse2Exchange.LastTradePublished |
| BSE.py:220-222 | After deleting, `del_order` reads `lob_anon[-1]`, which raises IndexError on an emptied side | Add one bid, then cancel it | The side simply has no best price (as BSE 1.3 does) | not executed | Bse12.DelOnlyBidCrashes | Bse12.DelOrderSpec |
| ZhenZhang/source/BSE_trader_agents.py:143-146 | The quote search `break`s after the first quote whether or not it matches | A FILL for the second of two live quotes | Find the quote with the message's order id | not executed | Traders.BookkeepAsWrittenMissesFill | Traders.BookkeepFill |
