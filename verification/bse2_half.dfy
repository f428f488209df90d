/** One side of a BSE2 order book (`Orderbook_half`): the dictionary of live
    orders keyed by order id, from which the limit order book is rebuilt after
    every change, and the three operations on it: adding a limit order
    (`book_add`), cancelling one (`book_CAN`) and walking the book with a
    liquidity-taking order (`book_take`). */
module Bse2Half {
  import opened Wrappers
  import opened Dicts
  import opened Messages
  import opened Depth
  import opened Bse2Lob

  /** Every order is stored under its own order id. */
  predicate KeyedById(d: Dict<int, Order>) {
    forall i :: 0 <= i < |d| ==> d[i].0 == d[i].1.orderid
  }

  /** `self.orders`: the live orders of one side, keyed by order id. */
  type OrderDict = d: Dict<int, Order> | UniqueKeys(d) && KeyedById(d) witness []

  predicate OrdersOk(d: Dict<int, Order>) {
    UniqueKeys(d) && KeyedById(d)
  }

  /** The state of an `Orderbook_half`. The LOB and its anonymised form are
      not stored: `build_lob` recomputes them from `orders` after every
      change, so here they are functions of `orders` (`Lob`, `LobAnon`). */
  datatype HalfBook = HalfBook(
    side: BookSide,
    orders: OrderDict,
    worstPrice: int,
    resting: seq<Order>,
    onOpen: seq<Order>,
    onClose: seq<Order>)

  function Lob(b: HalfBook): seq<Level> {
    BuildLob(b.side, Values(b.orders))
  }

  function LobAnon(b: HalfBook): seq<PriceQty> {
    Anon(Lob(b))
  }

  /** An event written to the tape: a trade between a seller (`party1`) and a
      buyer (`party2`), or the cancellation of an order. */
  datatype TapeEvent =
    | Trade(poolId: string, time: real, price: int, qty: int, party1: string, party2: string)
    | Cancelled(poolId: string, time: real, oid: int, otype: BookSide, qty: int)

  /** What a book operation hands back: the new book, the messages for the
      traders and the events for the tape. */
  datatype Outcome = Outcome(book: HalfBook, msgs: seq<ExchMsg>, tape: seq<TapeEvent>)

  /** A fresh, empty book side. */
  function NewHalfBook(side: BookSide, worstPrice: int): (b: HalfBook)
    ensures b.side == side && b.worstPrice == worstPrice
    ensures |Lob(b)| == 0 && |LobAnon(b)| == 0
    ensures b.resting == [] && b.onOpen == [] && b.onClose == []
  {
    HalfBook(side, [], worstPrice, [], [], [])
  }

  lemma {:induction false} GetMember(d: Dict<int, Order>, i: nat)
    requires UniqueKeys(d) && i < |d|
    ensures Get(d, d[i].0) == Some(d[i].1)
  {
    if i > 0 {
      assert d[i] == d[1..][i - 1];
      GetMember(d[1..], i - 1);
      assert d[i].0 in Keys(d[1..]);
    }
  }

  lemma KeyedPut(d: Dict<int, Order>, o: Order)
    requires KeyedById(d)
    ensures KeyedById(Put(d, o.orderid, o))
  {
    var r := Put(d, o.orderid, o);
    forall i | 0 <= i < |r| ensures r[i].0 == r[i].1.orderid {
      PutEntries(d, o.orderid, o, r[i]);
    }
  }

  lemma KeyedRemove(d: Dict<int, Order>, k: int)
    requires KeyedById(d)
    ensures KeyedById(Remove(d, k))
  {
    var r := Remove(d, k);
    forall i | 0 <= i < |r| ensures r[i].0 == r[i].1.orderid {
      RemoveEntries(d, k, r[i]);
    }
  }

  /** `book_add`: store the order under its order id, replacing any order
      already stored there, and leave every other order alone. */
  function BookAdd(b: HalfBook, o: Order): (r: HalfBook)
    ensures r.side == b.side && r.worstPrice == b.worstPrice
    ensures r.resting == b.resting && r.onOpen == b.onOpen && r.onClose == b.onClose
    ensures Get(r.orders, o.orderid) == Some(o)
    ensures forall k :: k != o.orderid ==> Get(r.orders, k) == Get(b.orders, k)
    ensures o.orderid !in Keys(b.orders) ==> |r.orders| == |b.orders| + 1
  {
    var d := Put(b.orders, o.orderid, o);
    KeyedPut(b.orders, o);
    assert forall k :: Get(d, k) == if k == o.orderid then Some(o) else Get(b.orders, k) by {
      forall k ensures Get(d, k) == if k == o.orderid then Some(o) else Get(b.orders, k) {
        GetPut(b.orders, o.orderid, o, k);
      }
    }
    b.(orders := d)
  }

  /** `book_CAN`: delete the order with the cancel request's order id. The
      requesting trader gets one CAN message and the tape one CAN event with
      the deleted order's quantity. An order id that is not in the book stops
      the program. */
  function BookCan(b: HalfBook, time: real, order: Order, poolId: string): (r: Result<Outcome>)
    ensures r.Ok? <==> order.orderid in Keys(b.orders)
    ensures r.Err? ==> r.failure.Exit?
    ensures r.Ok? ==>
      var out := r.value;
      && out.book == b.(orders := out.book.orders)
      && Get(out.book.orders, order.orderid) == None
      && (forall k :: k != order.orderid ==> Get(out.book.orders, k) == Get(b.orders, k))
      && |out.book.orders| == |b.orders| - 1
      && out.msgs == [ExchMsg(order.tid, order.orderid, Can, [], None, 0, 0)]
      && out.tape == [Cancelled(poolId, time, order.orderid, b.side, Get(b.orders, order.orderid).value.qty)]
  {
    var oid := order.orderid;
    match Get(b.orders, oid)
    case None => Err(Exit("Fail: book_CAN() attempts to delete nonexistent order "))
    case Some(gone) =>
      var d := Remove(b.orders, oid);
      KeyedRemove(b.orders, oid);
      assert forall k :: Get(d, k) == if k == oid then None else Get(b.orders, k) by {
        forall k ensures Get(d, k) == if k == oid then None else Get(b.orders, k) {
          GetRemove(b.orders, oid, k);
        }
      }
      Ok(Outcome(b.(orders := d),
                 [ExchMsg(order.tid, oid, Can, [], None, 0, 0)],
                 [Cancelled(poolId, time, oid, b.side, gone.qty)]))
  }

  /** Cancelling an order just added under a fresh order id gives back the
      book exactly as it was. */
  lemma AddThenCancel(b: HalfBook, o: Order, time: real, poolId: string)
    requires o.orderid !in Keys(b.orders)
    ensures BookCan(BookAdd(b, o), time, o, poolId)
            == Ok(Outcome(b, [ExchMsg(o.tid, o.orderid, Can, [], None, 0, 0)],
                          [Cancelled(poolId, time, o.orderid, b.side, o.qty)]))
  {
    RemovePutFresh(b.orders, o.orderid, o);
  }

  // ---------------------------------------------------------------------
  // book_take: walking the book.

  /** The LOB entries of the stored orders, in dictionary order. */
  function Entries(d: Dict<int, Order>): (r: seq<PricedEntry>)
    ensures |r| == |d|
    ensures forall i :: 0 <= i < |d| ==> r[i] == PricedEntry(d[i].1.price, EntryOf(d[i].1))
  {
    if |d| == 0 then [] else [PricedEntry(d[0].1.price, EntryOf(d[0].1))] + Entries(d[1..])
  }

  /** The walk's working copy of the LOB holds exactly the entries of the
      working copy of the orders. */
  predicate InStep(levels: seq<Level>, orders: Dict<int, Order>) {
    && OrdersOk(orders)
    && NonEmptyQueues(levels)
    && multiset(Flatten(levels)) == multiset(Entries(orders))
  }

  predicate NonEmptyQueues(levels: seq<Level>) {
    forall i :: 0 <= i < |levels| ==> |levels[i].queue| > 0
  }

  /** Drop the front entry of the best level, and the level once it is empty. */
  function PopFront(levels: seq<Level>): (r: seq<Level>)
    requires |levels| > 0 && NonEmptyQueues(levels)
    ensures NonEmptyQueues(r)
  {
    var q := levels[0].queue;
    if |q| == 1 then levels[1..]
    else [Level(levels[0].price, q[1..])] + levels[1..]
  }

  /** Popping the front entry drops the first entry in matching order. */
  lemma PopFrontFlatten(levels: seq<Level>)
    requires |levels| > 0 && NonEmptyQueues(levels)
    ensures Flatten(PopFront(levels)) == Flatten(levels)[1..]
  {
    if |levels[0].queue| > 1 { PopFrontFlattenMany(levels); } else { PopFrontFlattenOne(levels); }
  }

  lemma FlattenFront(levels: seq<Level>)
    requires |levels| > 0 && |levels[0].queue| > 0
    ensures Flatten(levels)
            == [PricedEntry(levels[0].price, levels[0].queue[0])]
               + (Tag(levels[0].price, levels[0].queue[1..]) + Flatten(levels[1..]))
  {
    var p := levels[0].price;
    var q := levels[0].queue;
    assert Tag(p, q) == [PricedEntry(p, q[0])] + Tag(p, q[1..]);
  }

  lemma PopFrontFlattenMany(levels: seq<Level>)
    requires |levels| > 0 && NonEmptyQueues(levels) && |levels[0].queue| > 1
    ensures Flatten(PopFront(levels)) == Flatten(levels)[1..]
  {
    FlattenFront(levels);
    var r := PopFront(levels);
    assert r[0] == Level(levels[0].price, levels[0].queue[1..]) && r[1..] == levels[1..];
  }

  lemma PopFrontFlattenOne(levels: seq<Level>)
    requires |levels| > 0 && NonEmptyQueues(levels) && |levels[0].queue| == 1
    ensures Flatten(PopFront(levels)) == Flatten(levels)[1..]
  {
    FlattenFront(levels);
    assert levels[0].queue[1..] == [];
  }

  /** Replace the quantity of the front entry of the best level. */
  function SetFrontQty(levels: seq<Level>, qty: int): (r: seq<Level>)
    requires |levels| > 0 && NonEmptyQueues(levels)
    ensures NonEmptyQueues(r)
  {
    var q := levels[0].queue;
    [Level(levels[0].price, [q[0].(qty := qty)] + q[1..])] + levels[1..]
  }

  /** Changing the front entry's quantity changes only the first entry in
      matching order. */
  lemma SetFrontQtyFlatten(levels: seq<Level>, qty: int)
    requires |levels| > 0 && NonEmptyQueues(levels)
    ensures Flatten(SetFrontQty(levels, qty))
            == [PricedEntry(levels[0].price, levels[0].queue[0].(qty := qty))] + Flatten(levels)[1..]
  {
    var q := levels[0].queue;
    var r := SetFrontQty(levels, qty);
    FlattenFront(levels);
    FlattenFront(r);
    assert r[0].queue[1..] == q[1..] && r[1..] == levels[1..];
  }

  /** `self.orders[oid].qty = qty`. */
  function SetQty(d: Dict<int, Order>, oid: int, qty: int): Dict<int, Order> {
    match Get(d, oid)
    case None => d
    case Some(o) => Put(d, oid, o.(qty := qty))
  }

  /** The state of `book_take`'s while loop. */
  datatype Walk = Walk(
    levels: seq<Level>,
    orders: Dict<int, Order>,
    remaining: int,
    goodPrice: bool,
    trns: seq<Transaction>,
    msgs: seq<ExchMsg>,
    tape: seq<TapeEvent>)

  /** (seller, buyer) of a trade between the taking order and a resting
      order of trader `resting`. */
  function Parties(order: Order, resting: string): (string, string) {
    if order.otype == Bid then (resting, order.tid) else (order.tid, resting)
  }

  /** One pass of the loop body once the price check has been passed: trade
      with the front entry of the best level. */
  function Consume(w: Walk, order: Order, time: real, poolId: string): Walk
    requires |w.levels| > 0 && NonEmptyQueues(w.levels)
  {
    var price := w.levels[0].price;
    var front := w.levels[0].queue[0];
    var parties := Parties(order, front.tid);
    if front.qty >= w.remaining then
      var qty := w.remaining;
      var t := Transaction(price, qty);
      var trns := w.trns + [t];
      var takerMsg := ExchMsg(order.tid, order.orderid, Fill, trns, None, 0, 0);
      var tape := w.tape + [Trade(poolId, time, price, qty, parties.0, parties.1)];
      var left := front.qty - qty;
      if left > 0 then
        var orders := SetQty(w.orders, front.oid, left);
        var restingMsg := ExchMsg(front.tid, front.oid, Part, [t], Get(orders, front.oid), 0, 0);
        Walk(SetFrontQty(w.levels, left), orders, 0, w.goodPrice, trns, w.msgs + [takerMsg, restingMsg], tape)
      else
        var orders := Remove(w.orders, front.oid);
        var restingMsg := ExchMsg(front.tid, front.oid, Fill, [t], None, 0, 0);
        Walk(PopFront(w.levels), orders, 0, w.goodPrice, trns, w.msgs + [takerMsg, restingMsg], tape)
    else
      var qty := front.qty;
      var t := Transaction(price, qty);
      var restingMsg := ExchMsg(front.tid, front.oid, Fill, [t], None, 0, 0);
      var orders := Remove(w.orders, front.oid);
      Walk(PopFront(w.levels), orders, w.remaining - qty, w.goodPrice, w.trns + [t],
           w.msgs + [restingMsg], w.tape + [Trade(poolId, time, price, qty, parties.0, parties.1)])
  }

  /** The while loop of `book_take`: it runs while the last price check
      passed, quantity remains and the book holds orders. An IOC order stops
      at the first level whose price is worse than its limit; any other style
      trades with the level it has just checked and stops after it. The loop
      also stops on an empty LOB; while the LOB and the orders are in step
      (WalkInStep) that is the same test as an empty order dictionary
      (InStepNonEmpty), so it changes nothing. */
  function WalkBook(side: BookSide, w: Walk, order: Order, time: real, poolId: string): (r: Walk)
    requires NonEmptyQueues(w.levels)
    decreases |Flatten(w.levels)|, if w.remaining > 0 then 1 else 0
  {
    if !(w.goodPrice && w.remaining > 0 && |w.orders| > 0 && |w.levels| > 0) then w
    else
      var gp := EqualOrBetter(side, w.levels[0].price, order.price);
      if order.ostyle == ImmediateOrCancel && !gp then w.(goodPrice := false)
      else
        ConsumeShrinks(w.(goodPrice := gp), order, time, poolId);
        WalkBook(side, Consume(w.(goodPrice := gp), order, time, poolId), order, time, poolId)
  }

  /** Each pass of the loop either removes an entry from the LOB or fills
      the order, so the loop ends. */
  lemma ConsumeShrinks(w: Walk, order: Order, time: real, poolId: string)
    requires |w.levels| > 0 && NonEmptyQueues(w.levels)
    ensures
      var r := Consume(w, order, time, poolId);
      && NonEmptyQueues(r.levels)
      && (|Flatten(r.levels)| < |Flatten(w.levels)|
          || (|Flatten(r.levels)| == |Flatten(w.levels)| && r.remaining == 0))
  {
    var front := w.levels[0].queue[0];
    if front.qty > w.remaining {
      SetFrontQtyFlatten(w.levels, front.qty - w.remaining);
    } else {
      PopFrontFlatten(w.levels);
    }
  }

  /** The walk ends with its LOB and orders still in step. */
  lemma {:induction false} WalkInStep(side: BookSide, w: Walk, order: Order, time: real, poolId: string)
    requires InStep(w.levels, w.orders)
    ensures InStep(WalkBook(side, w, order, time, poolId).levels, WalkBook(side, w, order, time, poolId).orders)
    decreases |Flatten(w.levels)|, if w.remaining > 0 then 1 else 0
  {
    if w.goodPrice && w.remaining > 0 && |w.orders| > 0 && |w.levels| > 0 {
      var gp := EqualOrBetter(side, w.levels[0].price, order.price);
      if !(order.ostyle == ImmediateOrCancel && !gp) {
        var w' := w.(goodPrice := gp);
        var c := Consume(w', order, time, poolId);
        ConsumeShrinks(w', order, time, poolId);
        ConsumeInStep(w', order, time, poolId);
        assert WalkBook(side, w, order, time, poolId) == WalkBook(side, c, order, time, poolId);
        WalkInStep(side, c, order, time, poolId);
      }
    }
  }

  lemma InStepNonEmpty(levels: seq<Level>, orders: Dict<int, Order>)
    requires InStep(levels, orders)
    ensures |levels| > 0 <==> |orders| > 0
  {
    assert |Flatten(levels)| == |multiset(Flatten(levels))| == |multiset(Entries(orders))| == |orders|;
    if |levels| > 0 {
      assert |Tag(levels[0].price, levels[0].queue)| > 0;
    }
  }

  function EntryFor(o: Order): PricedEntry {
    PricedEntry(o.price, EntryOf(o))
  }

  lemma {:induction false} EntriesRemove(d: Dict<int, Order>, k: int, o: Order)
    requires UniqueKeys(d) && Get(d, k) == Some(o)
    ensures multiset(Entries(Remove(d, k))) == multiset(Entries(d)) - multiset{EntryFor(o)}
  {
    assert Entries(d) == [EntryFor(d[0].1)] + Entries(d[1..]);
    if d[0].0 == k {
      assert Remove(d[1..], k) == d[1..];
    } else {
      var rest := Remove(d[1..], k);
      EntriesRemove(d[1..], k, o);
      assert Entries([d[0]] + rest) == [EntryFor(d[0].1)] + Entries(rest) by {
        assert ([d[0]] + rest)[1..] == rest;
      }
    }
  }

  lemma EntriesCons(x: (int, Order), d: Dict<int, Order>)
    ensures multiset(Entries([x] + d)) == multiset{EntryFor(x.1)} + multiset(Entries(d))
  {
    assert ([x] + d)[1..] == d;
    assert Entries([x] + d) == [EntryFor(x.1)] + Entries(d);
  }

  lemma EntryStored(d: Dict<int, Order>, k: int, o: Order)
    requires Get(d, k) == Some(o)
    ensures EntryFor(o) in multiset(Entries(d))
  {
    var i :| 0 <= i < |d| && d[i] == (k, o);
    assert Entries(d)[i] == EntryFor(o);
  }

  lemma MultisetSwap<T>(a: T, m: multiset<T>, x: T, y: T)
    requires x in m
    ensures multiset{a} + (m - multiset{x} + multiset{y}) == multiset{a} + m - multiset{x} + multiset{y}
  {
  }

  lemma {:induction false} EntriesPut(d: Dict<int, Order>, k: int, o: Order, o': Order)
    requires Get(d, k) == Some(o)
    ensures multiset(Entries(Put(d, k, o'))) == multiset(Entries(d)) - multiset{EntryFor(o)} + multiset{EntryFor(o')}
  {
    assert d == [d[0]] + d[1..];
    EntriesCons(d[0], d[1..]);
    if d[0].0 == k {
      assert Put(d, k, o') == [(k, o')] + d[1..];
      EntriesCons((k, o'), d[1..]);
    } else {
      var rest := Put(d[1..], k, o');
      assert Put(d, k, o') == [d[0]] + rest;
      EntriesPut(d[1..], k, o, o');
      EntriesCons(d[0], rest);
      EntryStored(d[1..], k, o);
      MultisetSwap(EntryFor(d[0].1), multiset(Entries(d[1..])), EntryFor(o), EntryFor(o'));
    }
  }

  /** The front entry of the walk's book is the entry of the order stored
      under its order id. */
  lemma FrontStored(levels: seq<Level>, orders: Dict<int, Order>)
    requires InStep(levels, orders) && |levels| > 0
    ensures Flatten(levels)[0] == PricedEntry(levels[0].price, levels[0].queue[0])
    ensures Get(orders, levels[0].queue[0].oid).Some?
    ensures EntryFor(Get(orders, levels[0].queue[0].oid).value) == Flatten(levels)[0]
  {
    var q := levels[0].queue;
    assert Tag(levels[0].price, q) == [PricedEntry(levels[0].price, q[0])] + Tag(levels[0].price, q[1..]);
    var f := Flatten(levels)[0];
    assert f in multiset(Flatten(levels));
    assert f in multiset(Entries(orders));
    var i :| 0 <= i < |orders| && Entries(orders)[i] == f;
    GetMember(orders, i);
  }

  /** A pass that leaves part of the front order reduces its quantity in
      both the LOB and the orders. */
  lemma ConsumeReduces(w: Walk, order: Order, time: real, poolId: string)
    requires |w.levels| > 0 && NonEmptyQueues(w.levels) && w.levels[0].queue[0].qty > w.remaining
    ensures Consume(w, order, time, poolId).levels
            == SetFrontQty(w.levels, w.levels[0].queue[0].qty - w.remaining)
    ensures Consume(w, order, time, poolId).orders
            == SetQty(w.orders, w.levels[0].queue[0].oid, w.levels[0].queue[0].qty - w.remaining)
  {
  }

  /** A pass that takes all of the front order removes it from both. */
  lemma ConsumeDrops(w: Walk, order: Order, time: real, poolId: string)
    requires |w.levels| > 0 && NonEmptyQueues(w.levels) && w.levels[0].queue[0].qty <= w.remaining
    ensures Consume(w, order, time, poolId).levels == PopFront(w.levels)
    ensures Consume(w, order, time, poolId).orders == Remove(w.orders, w.levels[0].queue[0].oid)
  {
  }

  /** One pass keeps the walk's LOB and orders in step. */
  lemma ConsumeInStep(w: Walk, order: Order, time: real, poolId: string)
    requires InStep(w.levels, w.orders) && |w.levels| > 0
    ensures InStep(Consume(w, order, time, poolId).levels, Consume(w, order, time, poolId).orders)
  {
    var c := Consume(w, order, time, poolId);
    if w.levels[0].queue[0].qty > w.remaining {
      ConsumeReduces(w, order, time, poolId);
      ReduceInStep(w.levels, w.orders, w.levels[0].queue[0].qty - w.remaining, c.levels, c.orders);
    } else {
      ConsumeDrops(w, order, time, poolId);
      DropInStep(w.levels, w.orders, c.levels, c.orders);
    }
  }

  /** Trading part of the front order keeps the LOB and orders in step. */
  lemma ReduceInStep(levels: seq<Level>, orders: Dict<int, Order>, left: int,
                     levels': seq<Level>, orders': Dict<int, Order>)
    requires InStep(levels, orders) && |levels| > 0
    requires levels' == SetFrontQty(levels, left)
    requires orders' == SetQty(orders, levels[0].queue[0].oid, left)
    ensures InStep(levels', orders')
  {
    ReduceOrdersOk(levels, orders, left, orders');
    ReduceContent(levels, orders, left, levels', orders');
  }

  lemma ReduceOrdersOk(levels: seq<Level>, orders: Dict<int, Order>, left: int, orders': Dict<int, Order>)
    requires InStep(levels, orders) && |levels| > 0
    requires orders' == SetQty(orders, levels[0].queue[0].oid, left)
    ensures OrdersOk(orders')
  {
    var front := levels[0].queue[0];
    FrontStored(levels, orders);
    var o := Get(orders, front.oid).value;
    assert o.orderid == front.oid;
    assert orders' == Put(orders, front.oid, o.(qty := left));
    KeyedPut(orders, o.(qty := left));
  }

  lemma ReduceContent(levels: seq<Level>, orders: Dict<int, Order>, left: int,
                      levels': seq<Level>, orders': Dict<int, Order>)
    requires InStep(levels, orders) && |levels| > 0
    requires levels' == SetFrontQty(levels, left)
    requires orders' == SetQty(orders, levels[0].queue[0].oid, left)
    ensures multiset(Flatten(levels')) == multiset(Entries(orders'))
  {
    SetFrontQtyFlatten(levels, left);
    ReduceEntries(levels, orders, left, orders');
    ReplaceFront(Flatten(levels), PricedEntry(levels[0].price, levels[0].queue[0].(qty := left)));
  }

  lemma ReduceEntries(levels: seq<Level>, orders: Dict<int, Order>, left: int, orders': Dict<int, Order>)
    requires InStep(levels, orders) && |levels| > 0
    requires orders' == SetQty(orders, levels[0].queue[0].oid, left)
    ensures multiset(Entries(orders'))
            == multiset(Flatten(levels)) - multiset{Flatten(levels)[0]}
               + multiset{PricedEntry(levels[0].price, levels[0].queue[0].(qty := left))}
  {
    FrontStored(levels, orders);
    SetQtyEntries(orders, levels[0].queue[0].oid, Get(orders, levels[0].queue[0].oid).value, left);
  }

  lemma SetQtyEntries(d: Dict<int, Order>, k: int, o: Order, qty: int)
    requires Get(d, k) == Some(o)
    ensures multiset(Entries(SetQty(d, k, qty)))
            == multiset(Entries(d)) - multiset{EntryFor(o)} + multiset{EntryFor(o.(qty := qty))}
  {
    EntriesPut(d, k, o, o.(qty := qty));
  }

  /** Replacing the first element of a sequence swaps one element of its
      multiset. */
  lemma ReplaceFront<T>(s: seq<T>, x: T)
    requires |s| > 0
    ensures multiset([x] + s[1..]) == multiset(s) - multiset{s[0]} + multiset{x}
  {
    assert s == [s[0]] + s[1..];
  }

  /** Dropping the first element of a sequence removes one element of its
      multiset. */
  lemma DropFirst<T>(s: seq<T>)
    requires |s| > 0
    ensures multiset(s[1..]) == multiset(s) - multiset{s[0]}
  {
    assert s == [s[0]] + s[1..];
  }

  /** Trading all of the front order keeps the LOB and orders in step. */
  lemma DropInStep(levels: seq<Level>, orders: Dict<int, Order>, levels': seq<Level>, orders': Dict<int, Order>)
    requires InStep(levels, orders) && |levels| > 0
    requires levels' == PopFront(levels)
    requires orders' == Remove(orders, levels[0].queue[0].oid)
    ensures InStep(levels', orders')
  {
    KeyedRemove(orders, levels[0].queue[0].oid);
    DropContent(levels, orders, levels', orders');
  }

  lemma DropContent(levels: seq<Level>, orders: Dict<int, Order>, levels': seq<Level>, orders': Dict<int, Order>)
    requires InStep(levels, orders) && |levels| > 0
    requires levels' == PopFront(levels)
    requires orders' == Remove(orders, levels[0].queue[0].oid)
    ensures multiset(Flatten(levels')) == multiset(Entries(orders'))
  {
    FrontStored(levels, orders);
    PopFrontFlatten(levels);
    DropFirst(Flatten(levels));
    EntriesRemove(orders, levels[0].queue[0].oid, Get(orders, levels[0].queue[0].oid).value);
  }

  /** The walk's LOB at the start of `book_take` is the book's LOB. */
  lemma LobQueuesNonEmpty(b: HalfBook)
    ensures NonEmptyQueues(Lob(b))
  {
    BuildLobFacts(b.side, Values(b.orders));
  }

  lemma StartInStep(b: HalfBook)
    ensures InStep(Lob(b), b.orders)
  {
    BuildLobFacts(b.side, Values(b.orders));
    assert Entries(b.orders) == PricedEntries(Values(b.orders));
  }

  /** Quantity on the anonymised LOB at prices equal to or better than
      `limit`: summed from the best level until the first level that is
      worse. */
  function DepthWithin(side: BookSide, anon: seq<PriceQty>, limit: int): int {
    if |anon| == 0 || !EqualOrBetter(side, anon[0].price, limit) then 0
    else anon[0].qty + DepthWithin(side, anon[1..], limit)
  }

  /** The depth `book_take` measures for `order` before walking the book. */
  function TakeDepth(b: HalfBook, order: Order): int {
    DepthWithin(b.side, LobAnon(b), order.price)
  }

  /** FOK and AON orders only ever fill completely. */
  predicate WholeFillOnly(order: Order) {
    order.ostyle == FillOrKill || order.ostyle == AllOrNone
  }

  /** The three cases in which `book_take` fails the order without touching
      the book: the book is empty, there is too little depth for an FOK/AON
      order, or no depth at all for an IOC order. */
  predicate TakeRejected(b: HalfBook, order: Order) {
    || |Lob(b)| == 0
    || (WholeFillOnly(order) && TakeDepth(b, order) < order.qty)
    || (order.ostyle == ImmediateOrCancel && TakeDepth(b, order) < 1)
  }

  function FailMsg(order: Order): ExchMsg {
    ExchMsg(order.tid, order.orderid, Fail, [], None, 0, 0)
  }

  /** The loop state on entry: the whole LOB, the order's full quantity, and
      a price check that a market order always passes. */
  function StartWalk(b: HalfBook, order: Order): Walk
    requires |Lob(b)| > 0
  {
    var lob := Lob(b);
    Walk(lob, b.orders, order.qty,
         order.ostyle == Market || EqualOrBetter(b.side, lob[0].price, order.price),
         [], [], [])
  }

  /** The message about the taking order itself once the loop is over: FAIL
      when nothing traded, PART with the unfilled quantity when some traded,
      nothing more when it filled (the FILL was sent inside the loop). */
  function Leftover(order: Order, w: Walk): seq<ExchMsg> {
    if w.remaining > 0 then
      if w.remaining == order.qty then [FailMsg(order)]
      else [ExchMsg(order.tid, order.orderid, Part, w.trns, Some(order.(qty := w.remaining)), 0, 0)]
    else []
  }

  /** `book_take`: fill a liquidity-taking order (MKT, IOC, FOK, AON, or a
      crossing limit order turned IOC) from the front of this book. An order
      type other than Bid or Ask stops the program, but only once the
      initial checks have passed. */
  function BookTake(b: HalfBook, time: real, order: Order, poolId: string): (r: Result<Outcome>)
    ensures r.Err? <==> !TakeRejected(b, order) && order.otype.OtherType?
    ensures r.Err? ==> r.failure.Exit?
    ensures TakeRejected(b, order) ==> r == Ok(Outcome(b, [FailMsg(order)], []))
    ensures r.Ok? ==> r.value.book == b.(orders := r.value.book.orders)
  {
    if TakeRejected(b, order) then Ok(Outcome(b, [FailMsg(order)], []))
    else if order.otype.OtherType? then Err(Exit(">book_take: order.otype in book_take"))
    else
      StartInStep(b);
      var w := WalkBook(b.side, StartWalk(b, order), order, time, poolId);
      WalkInStep(b.side, StartWalk(b, order), order, time, poolId);
      Ok(Outcome(b.(orders := w.orders), w.msgs + Leftover(order, w), w.tape))
  }

  // ---------------------------------------------------------------------
  // Proofs about book_take.

  /** Total quantity of the trades on a tape. */
  function TradedQty(tape: seq<TapeEvent>): int {
    if |tape| == 0 then 0
    else TradedQty(tape[..|tape| - 1]) + (if tape[|tape| - 1].Trade? then tape[|tape| - 1].qty else 0)
  }

  /** The (price, quantity) transactions of the trades on a tape. */
  function TransactionsOf(tape: seq<TapeEvent>): seq<Transaction> {
    if |tape| == 0 then []
    else TransactionsOf(tape[..|tape| - 1])
         + (if tape[|tape| - 1].Trade? then [Transaction(tape[|tape| - 1].price, tape[|tape| - 1].qty)] else [])
  }

  /** Event `ev` is a trade of the taking order with resting entry `pe`, at
      that entry's price and for no more than its quantity. */
  predicate TradeWith(ev: TapeEvent, poolId: string, time: real, order: Order, pe: PricedEntry) {
    && ev.Trade?
    && ev.poolId == poolId && ev.time == time
    && ev.price == pe.price
    && ev.qty <= pe.entry.qty
    && (ev.party1, ev.party2) == Parties(order, pe.entry.tid)
  }

  /** What one pass of the loop body does. */
  lemma ConsumeFacts(w: Walk, order: Order, time: real, poolId: string)
    requires |w.levels| > 0 && NonEmptyQueues(w.levels)
    ensures
      var c := Consume(w, order, time, poolId);
      var front := w.levels[0].queue[0];
      var f := Flatten(w.levels);
      var k := |w.tape|;
      && f[0] == PricedEntry(w.levels[0].price, front)
      && |c.tape| == k + 1 && c.tape[..k] == w.tape
      && TradeWith(c.tape[k], poolId, time, order, f[0])
      && c.trns == w.trns + [Transaction(c.tape[k].price, c.tape[k].qty)]
      && c.remaining + c.tape[k].qty == w.remaining
      && c.goodPrice == w.goodPrice
      && NonEmptyQueues(c.levels)
      && (front.qty > w.remaining ==>
            c.remaining == 0
            && Flatten(c.levels) == [PricedEntry(w.levels[0].price, front.(qty := front.qty - w.remaining))] + f[1..])
      && (front.qty <= w.remaining ==> Flatten(c.levels) == f[1..] && c.tape[k].qty == front.qty)
      && (front.qty >= w.remaining ==>
            c.remaining == 0 && |c.msgs| >= 2
            && c.msgs[|c.msgs| - 2] == ExchMsg(order.tid, order.orderid, Fill, c.trns, None, 0, 0))
      && (front.qty < w.remaining ==> c.remaining > 0)
  {
    var q := w.levels[0].queue;
    assert Tag(w.levels[0].price, q) == [PricedEntry(w.levels[0].price, q[0])] + Tag(w.levels[0].price, q[1..]);
    var c := Consume(w, order, time, poolId);
    ConsumeShrinks(w, order, time, poolId);
    if q[0].qty > w.remaining {
      SetFrontQtyFlatten(w.levels, q[0].qty - w.remaining);
    } else {
      PopFrontFlatten(w.levels);
    }
    assert c.tape[..|w.tape|] == w.tape;
  }

  lemma TradedQtyAppend(tape: seq<TapeEvent>, ev: TapeEvent)
    ensures TradedQty(tape + [ev]) == TradedQty(tape) + (if ev.Trade? then ev.qty else 0)
    ensures TransactionsOf(tape + [ev]) == TransactionsOf(tape) + (if ev.Trade? then [Transaction(ev.price, ev.qty)] else [])
  {
    assert (tape + [ev])[..|tape|] == tape;
  }

  /** The trades `ts` are made, in order, with the entries `f`: each at its
      entry's price and for no more than its quantity, each but the last for
      the entry's whole quantity. */
  predicate TradesFollow(ts: seq<TapeEvent>, f: seq<PricedEntry>, poolId: string, time: real, order: Order) {
    |ts| == 0
    || (&& |f| > 0
        && TradeWith(ts[0], poolId, time, order, f[0])
        && (|ts| > 1 ==> ts[0].qty == f[0].entry.qty)
        && TradesFollow(ts[1..], f[1..], poolId, time, order))
  }

  lemma FollowOne(wt: seq<TapeEvent>, ct: seq<TapeEvent>, f: seq<PricedEntry>,
                  poolId: string, time: real, order: Order)
    requires |f| > 0 && |ct| == |wt| + 1 && ct[..|wt|] == wt
    requires TradeWith(ct[|wt|], poolId, time, order, f[0])
    ensures TradesFollow(ct[|wt|..], f, poolId, time, order)
  {
    assert ct[|wt|..] == [ct[|wt|]];
    assert TradesFollow(ct[|wt|..][1..], f[1..], poolId, time, order);
  }

  lemma FollowShift(wt: seq<TapeEvent>, ct: seq<TapeEvent>, rt: seq<TapeEvent>, f: seq<PricedEntry>,
                    poolId: string, time: real, order: Order)
    requires |f| > 0 && |ct| == |wt| + 1 && ct[..|wt|] == wt
    requires TradeWith(ct[|wt|], poolId, time, order, f[0]) && ct[|wt|].qty == f[0].entry.qty
    requires |ct| <= |rt| && rt[..|ct|] == ct
    requires TradesFollow(rt[|ct|..], f[1..], poolId, time, order)
    ensures |wt| <= |rt| && rt[..|wt|] == wt
    ensures TradesFollow(rt[|wt|..], f, poolId, time, order)
  {
    var k := |wt|;
    assert rt[..k] == rt[..k + 1][..k];
    assert rt[k..][0] == ct[k] by {
      assert rt[k] == rt[..k + 1][k];
    }
    assert rt[k..][1..] == rt[k + 1..];
  }

  /** Price-time priority, walk by walk: the trades of the walk are made
      with the entries of the book in best-price-first, earliest-first
      order. */
  lemma {:induction false} WalkTrades(side: BookSide, w: Walk, order: Order, time: real, poolId: string)
    requires NonEmptyQueues(w.levels)
    ensures
      var r := WalkBook(side, w, order, time, poolId);
      && |w.tape| <= |r.tape| && r.tape[..|w.tape|] == w.tape
      && TradesFollow(r.tape[|w.tape|..], Flatten(w.levels), poolId, time, order)
    decreases |Flatten(w.levels)|, if w.remaining > 0 then 1 else 0
  {
    if w.goodPrice && w.remaining > 0 && |w.orders| > 0 && |w.levels| > 0 {
      var gp := EqualOrBetter(side, w.levels[0].price, order.price);
      if !(order.ostyle == ImmediateOrCancel && !gp) {
        var w' := w.(goodPrice := gp);
        var c := Consume(w', order, time, poolId);
        ConsumeFacts(w', order, time, poolId);
        assert WalkBook(side, w, order, time, poolId) == WalkBook(side, c, order, time, poolId);
        if w.levels[0].queue[0].qty >= w.remaining {
          assert WalkBook(side, c, order, time, poolId) == c;
          FollowOne(w.tape, c.tape, Flatten(w.levels), poolId, time, order);
        } else {
          WalkTrades(side, c, order, time, poolId);
          FollowShift(w.tape, c.tape, WalkBook(side, c, order, time, poolId).tape, Flatten(w.levels), poolId, time, order);
        }
      }
    }
  }

  /** Quantity conservation along the walk: what was traded plus what
      remains is what the order asked for, and the transactions reported are
      those of the trades on the tape. */
  lemma {:induction false} WalkConserves(side: BookSide, w: Walk, order: Order, time: real, poolId: string)
    requires NonEmptyQueues(w.levels)
    ensures
      var r := WalkBook(side, w, order, time, poolId);
      && r.remaining + TradedQty(r.tape) == w.remaining + TradedQty(w.tape)
      && (w.trns == TransactionsOf(w.tape) ==> r.trns == TransactionsOf(r.tape))
      && (w.remaining > 0 ==> r.remaining >= 0)
    decreases |Flatten(w.levels)|, if w.remaining > 0 then 1 else 0
  {
    if w.goodPrice && w.remaining > 0 && |w.orders| > 0 && |w.levels| > 0 {
      var gp := EqualOrBetter(side, w.levels[0].price, order.price);
      if !(order.ostyle == ImmediateOrCancel && !gp) {
        var w' := w.(goodPrice := gp);
        var c := Consume(w', order, time, poolId);
        ConsumeConserves(w', order, time, poolId);
        assert WalkBook(side, w, order, time, poolId) == WalkBook(side, c, order, time, poolId);
        if w.levels[0].queue[0].qty >= w.remaining {
          assert WalkBook(side, c, order, time, poolId) == c;
        } else {
          WalkConserves(side, c, order, time, poolId);
        }
      }
    }
  }

  /** One pass of the loop body moves quantity from what remains to the
      tape, and reports it as a transaction. */
  lemma ConsumeConserves(w: Walk, order: Order, time: real, poolId: string)
    requires |w.levels| > 0 && NonEmptyQueues(w.levels)
    ensures
      var c := Consume(w, order, time, poolId);
      && NonEmptyQueues(c.levels)
      && c.remaining + TradedQty(c.tape) == w.remaining + TradedQty(w.tape)
      && (w.trns == TransactionsOf(w.tape) ==> c.trns == TransactionsOf(c.tape))
      && (w.levels[0].queue[0].qty >= w.remaining ==> c.remaining == 0)
      && (w.levels[0].queue[0].qty < w.remaining ==>
            c.remaining > 0 && |Flatten(c.levels)| < |Flatten(w.levels)|)
  {
    var c := Consume(w, order, time, poolId);
    ConsumeFacts(w, order, time, poolId);
    ConsumeShrinks(w, order, time, poolId);
    var k := |w.tape|;
    assert c.tape == w.tape + [c.tape[k]];
    TradedQtyAppend(w.tape, c.tape[k]);
  }

  /** How one pass of the loop body leaves the remaining quantity, and the
      FILL it sends the taking order when nothing remains. */
  lemma ConsumeRemaining(w: Walk, order: Order, time: real, poolId: string)
    requires |w.levels| > 0 && NonEmptyQueues(w.levels)
    ensures
      var c := Consume(w, order, time, poolId);
      var front := w.levels[0].queue[0];
      && (front.qty >= w.remaining ==>
            c.remaining == 0 && |c.msgs| >= 2
            && c.msgs[|c.msgs| - 2] == ExchMsg(order.tid, order.orderid, Fill, c.trns, None, 0, 0))
      && (front.qty < w.remaining ==> c.remaining > 0)
  {
  }

  /** A walk that starts with quantity to fill and ends with none has just
      sent the taking order its FILL, carrying every transaction. */
  lemma {:induction false} WalkTakerFill(side: BookSide, w: Walk, order: Order, time: real, poolId: string)
    requires NonEmptyQueues(w.levels)
    ensures
      var r := WalkBook(side, w, order, time, poolId);
      w.remaining > 0 && r.remaining == 0 ==>
        |r.msgs| >= 2 && r.msgs[|r.msgs| - 2] == ExchMsg(order.tid, order.orderid, Fill, r.trns, None, 0, 0)
    decreases |Flatten(w.levels)|, if w.remaining > 0 then 1 else 0
  {
    if w.goodPrice && w.remaining > 0 && |w.orders| > 0 && |w.levels| > 0 {
      var gp := EqualOrBetter(side, w.levels[0].price, order.price);
      if !(order.ostyle == ImmediateOrCancel && !gp) {
        var w' := w.(goodPrice := gp);
        var c := Consume(w', order, time, poolId);
        ConsumeRemaining(w', order, time, poolId);
        ConsumeShrinks(w', order, time, poolId);
        assert WalkBook(side, w, order, time, poolId) == WalkBook(side, c, order, time, poolId);
        if w.levels[0].queue[0].qty >= w.remaining {
          assert WalkBook(side, c, order, time, poolId) == c;
        } else {
          WalkTakerFill(side, c, order, time, poolId);
        }
      }
    }
  }

  /** Every trade in `ts` is at a price equal to or better than `limit`. */
  predicate PricesWithin(ts: seq<TapeEvent>, side: BookSide, limit: int) {
    |ts| == 0 || (ts[0].Trade? && EqualOrBetter(side, ts[0].price, limit) && PricesWithin(ts[1..], side, limit))
  }

  lemma PricesShift(wt: seq<TapeEvent>, ct: seq<TapeEvent>, rt: seq<TapeEvent>, side: BookSide, limit: int)
    requires |ct| == |wt| + 1 && ct[..|wt|] == wt && ct[|wt|].Trade? && EqualOrBetter(side, ct[|wt|].price, limit)
    requires |ct| <= |rt| && rt[..|ct|] == ct && PricesWithin(rt[|ct|..], side, limit)
    ensures PricesWithin(rt[|wt|..], side, limit)
  {
    var k := |wt|;
    assert rt[k..][0] == ct[k] by {
      assert rt[k] == rt[..k + 1][k];
    }
    assert rt[k..][1..] == rt[k + 1..];
  }

  /** An IOC order trades only at prices equal to or better than its limit:
      the walk stops at the first level that is worse. */
  lemma {:induction false} WalkIocLimit(side: BookSide, w: Walk, order: Order, time: real, poolId: string)
    requires NonEmptyQueues(w.levels)
    requires order.ostyle == ImmediateOrCancel
    ensures
      var r := WalkBook(side, w, order, time, poolId);
      |w.tape| <= |r.tape| && PricesWithin(r.tape[|w.tape|..], side, order.price)
    decreases |Flatten(w.levels)|, if w.remaining > 0 then 1 else 0
  {
    if w.goodPrice && w.remaining > 0 && |w.orders| > 0 && |w.levels| > 0 {
      var gp := EqualOrBetter(side, w.levels[0].price, order.price);
      if gp {
        var w' := w.(goodPrice := gp);
        var c := Consume(w', order, time, poolId);
        ConsumeFacts(w', order, time, poolId);
        WalkTrades(side, c, order, time, poolId);
        assert WalkBook(side, w, order, time, poolId) == WalkBook(side, c, order, time, poolId);
        if w.levels[0].queue[0].qty >= w.remaining {
          assert WalkBook(side, c, order, time, poolId) == c;
          assert c.tape[|w.tape|..] == [c.tape[|w.tape|]];
          assert PricesWithin(c.tape[|w.tape|..][1..], side, order.price);
        } else {
          WalkIocLimit(side, c, order, time, poolId);
          PricesShift(w.tape, c.tape, WalkBook(side, c, order, time, poolId).tape, side, order.price);
        }
      } else {
        assert |WalkBook(side, w, order, time, poolId).tape[|w.tape|..]| == 0;
      }
    } else {
      assert |WalkBook(side, w, order, time, poolId).tape[|w.tape|..]| == 0;
    }
  }

  /** Quantity on the book's levels at prices equal to or better than
      `limit`, from the best level until the first worse one. */
  function GoodDepth(side: BookSide, levels: seq<Level>, limit: int): int {
    if |levels| == 0 || !EqualOrBetter(side, levels[0].price, limit) then 0
    else SumQty(levels[0].queue) + GoodDepth(side, levels[1..], limit)
  }

  lemma {:induction false} GoodDepthAnon(side: BookSide, levels: seq<Level>, limit: int)
    ensures DepthWithin(side, Anon(levels), limit) == GoodDepth(side, levels, limit)
  {
    if |levels| > 0 {
      assert Anon(levels)[1..] == Anon(levels[1..]);
      GoodDepthAnon(side, levels[1..], limit);
    }
  }

  lemma GoodDepthPop(side: BookSide, levels: seq<Level>, limit: int)
    requires |levels| > 0 && NonEmptyQueues(levels)
    requires EqualOrBetter(side, levels[0].price, limit)
    ensures GoodDepth(side, PopFront(levels), limit) == GoodDepth(side, levels, limit) - levels[0].queue[0].qty
  {
    var q := levels[0].queue;
    assert SumQty(q) == q[0].qty + SumQty(q[1..]);
    if |q| > 1 {
      assert PopFront(levels)[1..] == levels[1..];
    }
  }

  /** FOK/AON: when the depth at acceptable prices covers what remains, the
      walk fills the order completely. */
  lemma {:induction false} WalkFullFill(side: BookSide, w: Walk, order: Order, time: real, poolId: string)
    requires InStep(w.levels, w.orders)
    requires order.ostyle != ImmediateOrCancel
    requires w.remaining > 0 ==> w.goodPrice
    requires GoodDepth(side, w.levels, order.price) >= w.remaining
    ensures w.remaining > 0 ==> WalkBook(side, w, order, time, poolId).remaining == 0
    decreases |Flatten(w.levels)|, if w.remaining > 0 then 1 else 0
  {
    if w.remaining > 0 {
      assert |w.levels| > 0 && EqualOrBetter(side, w.levels[0].price, order.price);
      InStepNonEmpty(w.levels, w.orders);
      var w' := w.(goodPrice := true);
      var c := Consume(w', order, time, poolId);
      ConsumeInStep(w', order, time, poolId);
      assert WalkBook(side, w, order, time, poolId) == WalkBook(side, c, order, time, poolId);
      if w.levels[0].queue[0].qty < w.remaining {
        assert c.levels == PopFront(w.levels);
        GoodDepthPop(side, w.levels, order.price);
        WalkFullFill(side, c, order, time, poolId);
      } else {
        assert WalkBook(side, c, order, time, poolId) == c;
      }
    }
  }

  lemma {:induction false} FollowPointwise(ts: seq<TapeEvent>, f: seq<PricedEntry>, poolId: string, time: real, order: Order)
    requires TradesFollow(ts, f, poolId, time, order)
    ensures |ts| <= |f|
    ensures forall i :: 0 <= i < |ts| ==> TradeWith(ts[i], poolId, time, order, f[i])
    ensures forall i :: 0 <= i < |ts| - 1 ==> ts[i].qty == f[i].entry.qty
    decreases |ts|
  {
    if |ts| > 0 {
      FollowPointwise(ts[1..], f[1..], poolId, time, order);
      assert forall i :: 1 <= i < |ts| ==> ts[i] == ts[1..][i - 1] && f[i] == f[1..][i - 1];
    }
  }

  lemma {:induction false} PricesPointwise(ts: seq<TapeEvent>, side: BookSide, limit: int)
    requires PricesWithin(ts, side, limit)
    ensures forall i :: 0 <= i < |ts| ==> ts[i].Trade? && EqualOrBetter(side, ts[i].price, limit)
    decreases |ts|
  {
    if |ts| > 0 {
      PricesPointwise(ts[1..], side, limit);
      assert forall i :: 1 <= i < |ts| ==> ts[i] == ts[1..][i - 1];
    }
  }

  /** Price-time priority for `book_take`: the n-th trade on the tape is with
      the n-th entry of the book in matching order (best price first, then
      queue order), at that entry's price and between the right seller and
      buyer; every trade but the last takes the entry's whole quantity. */
  lemma TakePriority(b: HalfBook, time: real, order: Order, poolId: string)
    ensures
      var r := BookTake(b, time, order, poolId);
      var f := Flatten(Lob(b));
      r.Ok? ==>
        && InPriorityOrder(b.side, f)
        && |r.value.tape| <= |f|
        && (forall i :: 0 <= i < |r.value.tape| ==> TradeWith(r.value.tape[i], poolId, time, order, f[i]))
        && (forall i :: 0 <= i < |r.value.tape| - 1 ==> r.value.tape[i].qty == f[i].entry.qty)
  {
    BuildLobFacts(b.side, Values(b.orders));
    FlattenOrdered(b.side, Lob(b));
    var r := BookTake(b, time, order, poolId);
    if r.Ok? && !TakeRejected(b, order) {
      var w0 := StartWalk(b, order);
      WalkTrades(b.side, w0, order, time, poolId);
      var w := WalkBook(b.side, w0, order, time, poolId);
      assert w.tape[0..] == w.tape;
      FollowPointwise(w.tape, Flatten(Lob(b)), poolId, time, order);
    }
  }

  /** What the taking order is told once its walk is over, given how much
      of it the walk filled. */
  predicate ReportsFill(order: Order, msgs: seq<ExchMsg>, tape: seq<TapeEvent>) {
    var rem := order.qty - TradedQty(tape);
    && 0 <= rem
    && (rem == order.qty ==> |msgs| > 0 && msgs[|msgs| - 1] == FailMsg(order))
    && (0 < rem < order.qty ==>
          |msgs| > 0 && msgs[|msgs| - 1]
          == ExchMsg(order.tid, order.orderid, Part, TransactionsOf(tape), Some(order.(qty := rem)), 0, 0))
    && (rem == 0 ==>
          |msgs| >= 2
          && msgs[|msgs| - 2] == ExchMsg(order.tid, order.orderid, Fill, TransactionsOf(tape), None, 0, 0))
  }

  lemma LeftoverReports(order: Order, w: Walk)
    requires order.qty > 0
    requires w.remaining >= 0 && w.remaining + TradedQty(w.tape) == order.qty
    requires w.trns == TransactionsOf(w.tape)
    requires w.remaining == 0 ==>
      |w.msgs| >= 2 && w.msgs[|w.msgs| - 2] == ExchMsg(order.tid, order.orderid, Fill, w.trns, None, 0, 0)
    ensures ReportsFill(order, w.msgs + Leftover(order, w), w.tape)
  {
    var msgs := w.msgs + Leftover(order, w);
    if w.remaining > 0 {
      assert msgs[|msgs| - 1] == Leftover(order, w)[0];
    } else {
      assert msgs == w.msgs;
    }
  }

  /** Quantity conservation for `book_take`: with `rem` the order's quantity
      less everything traded, the taking order's last message is FAIL when
      nothing traded, PART carrying every transaction and the unfilled
      quantity when some traded, and when everything traded it was sent a
      FILL carrying every transaction. */
  lemma TakeConserves(b: HalfBook, time: real, order: Order, poolId: string)
    requires order.qty > 0
    ensures
      var r := BookTake(b, time, order, poolId);
      r.Ok? ==> ReportsFill(order, r.value.msgs, r.value.tape)
  {
    if !TakeRejected(b, order) && !order.otype.OtherType? {
      WalkReports(b, time, order, poolId);
    }
  }

  /** A walk started with the order's whole quantity ends with the taking
      order told what ReportsFill describes. */
  lemma WalkFromStartReports(side: BookSide, w0: Walk, order: Order, time: real, poolId: string)
    requires NonEmptyQueues(w0.levels)
    requires order.qty > 0 && w0.remaining == order.qty && w0.tape == [] && w0.trns == []
    ensures
      var w := WalkBook(side, w0, order, time, poolId);
      ReportsFill(order, w.msgs + Leftover(order, w), w.tape)
  {
    WalkConserves(side, w0, order, time, poolId);
    WalkTakerFill(side, w0, order, time, poolId);
    LeftoverReports(order, WalkBook(side, w0, order, time, poolId));
  }

  lemma WalkReports(b: HalfBook, time: real, order: Order, poolId: string)
    requires order.qty > 0 && !TakeRejected(b, order) && !order.otype.OtherType?
    ensures BookTake(b, time, order, poolId).Ok?
    ensures ReportsFill(order, BookTake(b, time, order, poolId).value.msgs, BookTake(b, time, order, poolId).value.tape)
  {
    LobQueuesNonEmpty(b);
    var w0 := StartWalk(b, order);
    WalkFromStartReports(b.side, w0, order, time, poolId);
    var w := WalkBook(b.side, w0, order, time, poolId);
    assert BookTake(b, time, order, poolId).value == Outcome(b.(orders := w.orders), w.msgs + Leftover(order, w), w.tape);
  }

  /** An IOC order never trades at a price worse than its limit. */
  lemma TakeIocWithinLimit(b: HalfBook, time: real, order: Order, poolId: string)
    requires order.ostyle == ImmediateOrCancel
    ensures
      var r := BookTake(b, time, order, poolId);
      r.Ok? ==> forall i :: 0 <= i < |r.value.tape| ==>
        r.value.tape[i].Trade? && EqualOrBetter(b.side, r.value.tape[i].price, order.price)
  {
    var r := BookTake(b, time, order, poolId);
    if r.Ok? && !TakeRejected(b, order) {
      LobQueuesNonEmpty(b);
      var w0 := StartWalk(b, order);
      WalkIocLimit(b.side, w0, order, time, poolId);
      var w := WalkBook(b.side, w0, order, time, poolId);
      assert w.tape[0..] == w.tape;
      PricesPointwise(w.tape, b.side, order.price);
    }
  }

  /** FOK and AON are all-or-nothing: with too little depth at acceptable
      prices the order fails and the book is untouched; otherwise the whole
      quantity trades and the order is sent its FILL. */
  lemma TakeAllOrNothing(b: HalfBook, time: real, order: Order, poolId: string)
    requires WholeFillOnly(order) && order.qty > 0 && !order.otype.OtherType?
    ensures
      var r := BookTake(b, time, order, poolId);
      && r.Ok?
      && (TakeDepth(b, order) < order.qty ==> r.value == Outcome(b, [FailMsg(order)], []))
      && (TakeDepth(b, order) >= order.qty ==> FilledWhole(order, r.value.msgs, r.value.tape))
  {
    if TakeDepth(b, order) >= order.qty {
      TakeFillsWhole(b, time, order, poolId);
    }
  }

  /** The whole quantity traded and the order was sent its FILL carrying
      every transaction, with no message about it after that but the
      resting order's. */
  predicate FilledWhole(order: Order, msgs: seq<ExchMsg>, tape: seq<TapeEvent>) {
    && TradedQty(tape) == order.qty
    && |msgs| >= 2
    && msgs[|msgs| - 2] == ExchMsg(order.tid, order.orderid, Fill, TransactionsOf(tape), None, 0, 0)
  }

  lemma WalkFromStartFills(side: BookSide, w0: Walk, order: Order, time: real, poolId: string)
    requires InStep(w0.levels, w0.orders)
    requires order.ostyle != ImmediateOrCancel && w0.goodPrice
    requires order.qty > 0 && w0.remaining == order.qty && w0.tape == [] && w0.trns == []
    requires GoodDepth(side, w0.levels, order.price) >= order.qty
    ensures
      var w := WalkBook(side, w0, order, time, poolId);
      w.remaining == 0 && FilledWhole(order, w.msgs + Leftover(order, w), w.tape)
  {
    WalkFullFill(side, w0, order, time, poolId);
    WalkConserves(side, w0, order, time, poolId);
    WalkTakerFill(side, w0, order, time, poolId);
    var w := WalkBook(side, w0, order, time, poolId);
    assert w.msgs + Leftover(order, w) == w.msgs;
  }

  lemma TakeFillsWhole(b: HalfBook, time: real, order: Order, poolId: string)
    requires WholeFillOnly(order) && order.qty > 0 && !order.otype.OtherType?
    requires TakeDepth(b, order) >= order.qty
    ensures BookTake(b, time, order, poolId).Ok?
    ensures FilledWhole(order, BookTake(b, time, order, poolId).value.msgs, BookTake(b, time, order, poolId).value.tape)
  {
    GoodDepthAnon(b.side, Lob(b), order.price);
    assert |Lob(b)| > 0;
    StartInStep(b);
    var w0 := StartWalk(b, order);
    WalkFromStartFills(b.side, w0, order, time, poolId);
    var w := WalkBook(b.side, w0, order, time, poolId);
    assert BookTake(b, time, order, poolId).value == Outcome(b.(orders := w.orders), w.msgs + Leftover(order, w), w.tape);
  }

  /** What one pass of the loop does to the resting order it trades with:
      a partly filled order stays under its id with the quantity left and is
      sent PART with the transaction and its revised order; a wholly filled
      one is deleted and sent FILL. No other stored order changes. */
  lemma ConsumeResting(w: Walk, order: Order, time: real, poolId: string)
    requires InStep(w.levels, w.orders) && |w.levels| > 0
    ensures
      var c := Consume(w, order, time, poolId);
      var front := w.levels[0].queue[0];
      var price := w.levels[0].price;
      var stored := Get(w.orders, front.oid);
      && stored.Some?
      && (front.qty > w.remaining ==>
            && Get(c.orders, front.oid) == Some(stored.value.(qty := front.qty - w.remaining))
            && c.msgs[|c.msgs| - 1]
               == ExchMsg(front.tid, front.oid, Part, [Transaction(price, w.remaining)], Get(c.orders, front.oid), 0, 0))
      && (front.qty <= w.remaining ==>
            && Get(c.orders, front.oid) == None
            && c.msgs[|c.msgs| - 1] == ExchMsg(front.tid, front.oid, Fill, [Transaction(price, front.qty)], None, 0, 0))
      && (forall k :: k != front.oid ==> Get(c.orders, k) == Get(w.orders, k))
  {
    FrontStored(w.levels, w.orders);
    if w.levels[0].queue[0].qty > w.remaining {
      RestingReduced(w, order, time, poolId);
    } else {
      RestingRemoved(w, order, time, poolId);
    }
  }

  lemma RestingReduced(w: Walk, order: Order, time: real, poolId: string)
    requires InStep(w.levels, w.orders) && |w.levels| > 0 && w.levels[0].queue[0].qty > w.remaining
    ensures
      var c := Consume(w, order, time, poolId);
      var front := w.levels[0].queue[0];
      var stored := Get(w.orders, front.oid);
      && stored.Some?
      && Get(c.orders, front.oid) == Some(stored.value.(qty := front.qty - w.remaining))
      && c.msgs[|c.msgs| - 1]
         == ExchMsg(front.tid, front.oid, Part, [Transaction(w.levels[0].price, w.remaining)], Get(c.orders, front.oid), 0, 0)
      && (forall k :: k != front.oid ==> Get(c.orders, k) == Get(w.orders, k))
  {
    FrontStored(w.levels, w.orders);
    ConsumeReduces(w, order, time, poolId);
    var front := w.levels[0].queue[0];
    var o := Get(w.orders, front.oid).value;
    var left := front.qty - w.remaining;
    assert SetQty(w.orders, front.oid, left) == Put(w.orders, front.oid, o.(qty := left));
    forall k ensures Get(Put(w.orders, front.oid, o.(qty := left)), k)
                     == if k == front.oid then Some(o.(qty := left)) else Get(w.orders, k) {
      GetPut(w.orders, front.oid, o.(qty := left), k);
    }
  }

  lemma RestingRemoved(w: Walk, order: Order, time: real, poolId: string)
    requires InStep(w.levels, w.orders) && |w.levels| > 0 && w.levels[0].queue[0].qty <= w.remaining
    ensures
      var c := Consume(w, order, time, poolId);
      var front := w.levels[0].queue[0];
      && Get(c.orders, front.oid) == None
      && c.msgs[|c.msgs| - 1] == ExchMsg(front.tid, front.oid, Fill, [Transaction(w.levels[0].price, front.qty)], None, 0, 0)
      && (forall k :: k != front.oid ==> Get(c.orders, k) == Get(w.orders, k))
  {
    ConsumeDrops(w, order, time, poolId);
    var front := w.levels[0].queue[0];
    forall k ensures Get(Remove(w.orders, front.oid), k) == if k == front.oid then None else Get(w.orders, k) {
      GetRemove(w.orders, front.oid, k);
    }
  }

  /** `book_take` as written: on the FOK/AON failure path the FAIL message
      reads `order.oid`, an attribute orders do not have, so the call raises
      instead of failing the order. */
  function BookTakeAsWritten(b: HalfBook, time: real, order: Order, poolId: string): (r: Result<Outcome>)
    ensures r.Err? && r.failure.Crash? <==> |Lob(b)| > 0 && WholeFillOnly(order) && TakeDepth(b, order) < order.qty
    ensures r.Ok? ==> r == BookTake(b, time, order, poolId)
  {
    if |Lob(b)| > 0 && WholeFillOnly(order) && TakeDepth(b, order) < order.qty then
      Err(Crash("AttributeError: order has no attribute 'oid'"))
    else BookTake(b, time, order, poolId)
  }

  /** Any FOK order too large for the book's depth shows the difference: as
      written the call raises, where the corrected `book_take` fails the
      order and leaves the book alone. */
  lemma FokShortfallCrashes(b: HalfBook, time: real, order: Order, poolId: string)
    requires |Lob(b)| > 0 && order.ostyle == FillOrKill && TakeDepth(b, order) < order.qty
    ensures BookTakeAsWritten(b, time, order, poolId).Err?
    ensures BookTake(b, time, order, poolId) == Ok(Outcome(b, [FailMsg(order)], []))
  {
  }
  // ---------------------------------------------------------------------
  // What a walk leaves behind.

  /** Every order of `d'` is stored in `d` under the same id at the same
      price: quantities may have dropped and orders may have gone, but
      nothing was added or repriced. */
  ghost predicate Retains(d: Dict<int, Order>, d': Dict<int, Order>) {
    forall k :: Get(d', k).Some? ==> Get(d, k).Some? && Get(d', k).value.price == Get(d, k).value.price
  }

  lemma SetQtyRetains(d: Dict<int, Order>, oid: int, qty: int)
    ensures Retains(d, SetQty(d, oid, qty))
  {
    var d' := SetQty(d, oid, qty);
    forall k | Get(d', k).Some? ensures Get(d, k).Some? && Get(d', k).value.price == Get(d, k).value.price {
      if Get(d, oid).Some? {
        GetPut(d, oid, Get(d, oid).value.(qty := qty), k);
      }
    }
  }

  lemma RemoveRetains(d: Dict<int, Order>, oid: int)
    requires UniqueKeys(d)
    ensures Retains(d, Remove(d, oid))
  {
    forall k | Get(Remove(d, oid), k).Some? ensures Get(d, k) == Get(Remove(d, oid), k) {
      GetRemove(d, oid, k);
    }
  }

  /** One pass of the loop keeps the keys unique and retains the orders. */
  lemma ConsumeRetains(w: Walk, order: Order, time: real, poolId: string)
    requires |w.levels| > 0 && NonEmptyQueues(w.levels) && UniqueKeys(w.orders)
    ensures UniqueKeys(Consume(w, order, time, poolId).orders)
    ensures Retains(w.orders, Consume(w, order, time, poolId).orders)
  {
    var front := w.levels[0].queue[0];
    if front.qty > w.remaining {
      ConsumeReduces(w, order, time, poolId);
      SetQtyRetains(w.orders, front.oid, front.qty - w.remaining);
    } else {
      ConsumeDrops(w, order, time, poolId);
      RemoveRetains(w.orders, front.oid);
    }
  }

  lemma {:induction false} WalkRetains(side: BookSide, w: Walk, order: Order, time: real, poolId: string)
    requires NonEmptyQueues(w.levels) && UniqueKeys(w.orders)
    ensures Retains(w.orders, WalkBook(side, w, order, time, poolId).orders)
    decreases |Flatten(w.levels)|, if w.remaining > 0 then 1 else 0
  {
    if w.goodPrice && w.remaining > 0 && |w.orders| > 0 && |w.levels| > 0 {
      var gp := EqualOrBetter(side, w.levels[0].price, order.price);
      if !(order.ostyle == ImmediateOrCancel && !gp) {
        var w' := w.(goodPrice := gp);
        var c := Consume(w', order, time, poolId);
        ConsumeShrinks(w', order, time, poolId);
        ConsumeRetains(w', order, time, poolId);
        assert WalkBook(side, w, order, time, poolId) == WalkBook(side, c, order, time, poolId);
        WalkRetains(side, c, order, time, poolId);
      }
    }
  }

  // ---------------------------------------------------------------------
  // Exactly what a walk does to the resting orders.

  /** Total quantity of the orders in a dictionary. */
  function TotalQty(d: Dict<int, Order>): int {
    if |d| == 0 then 0 else d[0].1.qty + TotalQty(d[1..])
  }

  lemma {:induction false} TotalRemove(d: Dict<int, Order>, k: int, o: Order)
    requires UniqueKeys(d) && Get(d, k) == Some(o)
    ensures TotalQty(Remove(d, k)) == TotalQty(d) - o.qty
  {
    if d[0].0 == k {
      assert Remove(d[1..], k) == d[1..];
    } else {
      TotalRemove(d[1..], k, o);
      assert Remove(d, k)[1..] == Remove(d[1..], k);
    }
  }

  lemma {:induction false} TotalPut(d: Dict<int, Order>, k: int, o: Order, o': Order)
    requires Get(d, k) == Some(o)
    ensures TotalQty(Put(d, k, o')) == TotalQty(d) - o.qty + o'.qty
  {
    if d[0].0 == k {
      assert Put(d, k, o')[1..] == d[1..];
    } else {
      TotalPut(d[1..], k, o, o');
      assert Put(d, k, o')[1..] == Put(d[1..], k, o');
    }
  }

  /** One pass of the loop takes from the resting orders exactly the
      quantity it puts on the tape. */
  lemma ConsumeTotal(w: Walk, order: Order, time: real, poolId: string)
    requires InStep(w.levels, w.orders) && |w.levels| > 0
    ensures
      var c := Consume(w, order, time, poolId);
      TotalQty(c.orders) + TradedQty(c.tape) == TotalQty(w.orders) + TradedQty(w.tape)
  {
    var c := Consume(w, order, time, poolId);
    var front := w.levels[0].queue[0];
    FrontStored(w.levels, w.orders);
    var o := Get(w.orders, front.oid).value;
    assert o.qty == front.qty;
    ConsumeConserves(w, order, time, poolId);
    if front.qty > w.remaining {
      ConsumeReduces(w, order, time, poolId);
      TotalPut(w.orders, front.oid, o, o.(qty := front.qty - w.remaining));
    } else {
      ConsumeDrops(w, order, time, poolId);
      TotalRemove(w.orders, front.oid, o);
    }
  }

  lemma {:induction false} WalkTotal(side: BookSide, w: Walk, order: Order, time: real, poolId: string)
    requires InStep(w.levels, w.orders)
    ensures
      var r := WalkBook(side, w, order, time, poolId);
      TotalQty(r.orders) + TradedQty(r.tape) == TotalQty(w.orders) + TradedQty(w.tape)
    decreases |Flatten(w.levels)|, if w.remaining > 0 then 1 else 0
  {
    if w.goodPrice && w.remaining > 0 && |w.orders| > 0 && |w.levels| > 0 {
      var gp := EqualOrBetter(side, w.levels[0].price, order.price);
      if !(order.ostyle == ImmediateOrCancel && !gp) {
        var w' := w.(goodPrice := gp);
        var c := Consume(w', order, time, poolId);
        ConsumeShrinks(w', order, time, poolId);
        ConsumeInStep(w', order, time, poolId);
        ConsumeTotal(w', order, time, poolId);
        assert WalkBook(side, w, order, time, poolId) == WalkBook(side, c, order, time, poolId);
        WalkTotal(side, c, order, time, poolId);
      }
    }
  }

  /** The last trade `t` of a walk, made with entry `e`: the order it was
      made with is left with the quantity the trade did not take, or is gone
      when the trade took all of it. */
  ghost predicate LastTaken(d: Dict<int, Order>, d': Dict<int, Order>, e: PricedEntry, t: TapeEvent) {
    && Get(d, e.entry.oid).Some?
    && Get(d', e.entry.oid)
       == if t.qty == e.entry.qty then None else Some(Get(d, e.entry.oid).value.(qty := e.entry.qty - t.qty))
  }

  /** The orders `d'` are what the trades `ts`, made in order with the
      entries `f`, leave of the orders `d`: an order none of the trades was
      made with is unchanged, every order traded with but the last is gone,
      and the last is reduced by its trade's quantity, or gone. */
  ghost predicate TakenFrom(d: Dict<int, Order>, d': Dict<int, Order>, f: seq<PricedEntry>, ts: seq<TapeEvent>) {
    && |ts| <= |f|
    && (forall k :: (forall i :: 0 <= i < |ts| ==> f[i].entry.oid != k) ==> Get(d', k) == Get(d, k))
    && (forall i :: 0 <= i < |ts| - 1 ==> Get(d', f[i].entry.oid) == None)
    && (|ts| > 0 ==> LastTaken(d, d', f[|ts| - 1], ts[|ts| - 1]))
  }

  lemma TakenFromOne(d: Dict<int, Order>, d': Dict<int, Order>, f: seq<PricedEntry>, t: TapeEvent)
    requires |f| > 0
    requires forall k :: k != f[0].entry.oid ==> Get(d', k) == Get(d, k)
    requires LastTaken(d, d', f[0], t)
    ensures TakenFrom(d, d', f, [t])
  {
  }

  /** A walk whose first trade took the whole of its entry, followed by the
      rest of the walk. */
  lemma TakenFromShift(d: Dict<int, Order>, c: Dict<int, Order>, d': Dict<int, Order>,
                       f: seq<PricedEntry>, ts: seq<TapeEvent>)
    requires |f| > 0 && |ts| > 0 && ts[0].qty == f[0].entry.qty
    requires Get(d, f[0].entry.oid).Some? && Get(c, f[0].entry.oid) == None
    requires forall k :: k != f[0].entry.oid ==> Get(c, k) == Get(d, k)
    requires Retains(c, d')
    requires TakenFrom(c, d', f[1..], ts[1..])
    ensures TakenFrom(d, d', f, ts)
  {
    var n := |ts|;
    var o0 := f[0].entry.oid;
    assert Get(d', o0).Some? ==> Get(c, o0).Some?;
    forall k | forall i :: 0 <= i < n ==> f[i].entry.oid != k
      ensures Get(d', k) == Get(d, k)
    {
      assert k != o0;
      forall i | 0 <= i < n - 1
        ensures f[1..][i].entry.oid != k
      {
        assert f[1..][i] == f[i + 1];
      }
    }
    forall i | 1 <= i < n - 1
      ensures Get(d', f[i].entry.oid) == None
    {
      assert f[i] == f[1..][i - 1];
    }
    if n > 1 {
      assert f[n - 1] == f[1..][n - 2] && ts[n - 1] == ts[1..][n - 2];
      assert f[n - 1].entry.oid != o0;
    }
  }

  lemma {:induction false} WalkResting(side: BookSide, w: Walk, order: Order, time: real, poolId: string)
    requires InStep(w.levels, w.orders)
    ensures
      var r := WalkBook(side, w, order, time, poolId);
      |w.tape| <= |r.tape| && TakenFrom(w.orders, r.orders, Flatten(w.levels), r.tape[|w.tape|..])
    decreases |Flatten(w.levels)|, if w.remaining > 0 then 1 else 0, 1
  {
    var r := WalkBook(side, w, order, time, poolId);
    if w.goodPrice && w.remaining > 0 && |w.orders| > 0 && |w.levels| > 0 {
      var gp := EqualOrBetter(side, w.levels[0].price, order.price);
      if !(order.ostyle == ImmediateOrCancel && !gp) {
        if w.levels[0].queue[0].qty >= w.remaining {
          WalkRestingLast(side, w, order, time, poolId);
        } else {
          WalkRestingDrop(side, w, order, time, poolId);
        }
      } else {
        assert r.tape[|w.tape|..] == [];
      }
    } else {
      assert r.tape[|w.tape|..] == [];
    }
  }

  /** The pass that fills what remains of the order ends the walk. */
  lemma WalkRestingLast(side: BookSide, w: Walk, order: Order, time: real, poolId: string)
    requires InStep(w.levels, w.orders)
    requires w.goodPrice && w.remaining > 0 && |w.orders| > 0 && |w.levels| > 0
    requires !(order.ostyle == ImmediateOrCancel && !EqualOrBetter(side, w.levels[0].price, order.price))
    requires w.levels[0].queue[0].qty >= w.remaining
    ensures
      var r := WalkBook(side, w, order, time, poolId);
      |w.tape| <= |r.tape| && TakenFrom(w.orders, r.orders, Flatten(w.levels), r.tape[|w.tape|..])
  {
    var gp := EqualOrBetter(side, w.levels[0].price, order.price);
    var w' := w.(goodPrice := gp);
    var c := Consume(w', order, time, poolId);
    var k := |w.tape|;
    ConsumeFacts(w', order, time, poolId);
    ConsumeResting(w', order, time, poolId);
    assert WalkBook(side, w, order, time, poolId) == c;
    assert c.tape[k..] == [c.tape[k]];
    TakenFromOne(w.orders, c.orders, Flatten(w.levels), c.tape[k]);
  }

  /** A pass that takes the whole front order and leaves quantity to fill,
      followed by the rest of the walk. */
  lemma {:induction false} WalkRestingDrop(side: BookSide, w: Walk, order: Order, time: real, poolId: string)
    requires InStep(w.levels, w.orders)
    requires w.goodPrice && w.remaining > 0 && |w.orders| > 0 && |w.levels| > 0
    requires !(order.ostyle == ImmediateOrCancel && !EqualOrBetter(side, w.levels[0].price, order.price))
    requires w.levels[0].queue[0].qty < w.remaining
    ensures
      var r := WalkBook(side, w, order, time, poolId);
      |w.tape| <= |r.tape| && TakenFrom(w.orders, r.orders, Flatten(w.levels), r.tape[|w.tape|..])
    decreases |Flatten(w.levels)|, 1, 0
  {
    var gp := EqualOrBetter(side, w.levels[0].price, order.price);
    var w' := w.(goodPrice := gp);
    var c := Consume(w', order, time, poolId);
    var k := |w.tape|;
    ConsumeFacts(w', order, time, poolId);
    ConsumeResting(w', order, time, poolId);
    ConsumeShrinks(w', order, time, poolId);
    ConsumeInStep(w', order, time, poolId);
    var r := WalkBook(side, c, order, time, poolId);
    assert WalkBook(side, w, order, time, poolId) == r;
    WalkResting(side, c, order, time, poolId);
    WalkRetains(side, c, order, time, poolId);
    WalkTrades(side, c, order, time, poolId);
    assert r.tape[k..][0] == c.tape[k] by {
      assert r.tape[k] == r.tape[..k + 1][k];
    }
    assert r.tape[k..][1..] == r.tape[k + 1..];
    TakenFromShift(w.orders, c.orders, r.orders, Flatten(w.levels), r.tape[k..]);
  }

  /** `book_take` on the side it walks: it never adds or reprices an order.
      With `f` the book's entries in priority order, an order none of the
      trades was made with is unchanged, every order traded with but the
      last is deleted, and the last keeps its order id with its quantity
      less the traded quantity, or is deleted when nothing is left of it;
      the side's total quantity falls by exactly the quantity traded. */
  lemma TakeRetains(b: HalfBook, time: real, order: Order, poolId: string)
    ensures
      var r := BookTake(b, time, order, poolId);
      r.Ok? ==>
        && Retains(b.orders, r.value.book.orders)
        && TakenFrom(b.orders, r.value.book.orders, Flatten(Lob(b)), r.value.tape)
        && TotalQty(r.value.book.orders) == TotalQty(b.orders) - TradedQty(r.value.tape)
  {
    if !TakeRejected(b, order) && !order.otype.OtherType? {
      StartInStep(b);
      var w0 := StartWalk(b, order);
      WalkRetains(b.side, w0, order, time, poolId);
      WalkResting(b.side, w0, order, time, poolId);
      WalkTotal(b.side, w0, order, time, poolId);
      var w := WalkBook(b.side, w0, order, time, poolId);
      assert w.tape[0..] == w.tape;
    }
  }

  // ---------------------------------------------------------------------
  // Prices of the trades of a MKT, FOK or AON order.

  /** Every trade in `ts` except the last is at a price equal to or better
      than `limit`. */
  ghost predicate WithinButLast(ts: seq<TapeEvent>, side: BookSide, limit: int) {
    forall i :: 0 <= i < |ts| - 1 ==> ts[i].Trade? && EqualOrBetter(side, ts[i].price, limit)
  }

  /** Outside IOC the loop checks the price of the best level and then
      trades with its front order whatever the check said, stopping only
      afterwards; so every trade but the last is at the order's price or
      better. */
  lemma {:induction false} WalkWithinButLast(side: BookSide, w: Walk, order: Order, time: real, poolId: string)
    requires NonEmptyQueues(w.levels) && order.ostyle != ImmediateOrCancel
    ensures
      var r := WalkBook(side, w, order, time, poolId);
      |w.tape| <= |r.tape| && WithinButLast(r.tape[|w.tape|..], side, order.price)
    decreases |Flatten(w.levels)|, if w.remaining > 0 then 1 else 0
  {
    var r := WalkBook(side, w, order, time, poolId);
    WalkTrades(side, w, order, time, poolId);
    if w.goodPrice && w.remaining > 0 && |w.orders| > 0 && |w.levels| > 0 {
      var gp := EqualOrBetter(side, w.levels[0].price, order.price);
      var w' := w.(goodPrice := gp);
      var c := Consume(w', order, time, poolId);
      var k := |w.tape|;
      ConsumeFacts(w', order, time, poolId);
      assert r == WalkBook(side, c, order, time, poolId);
      if !gp || w.levels[0].queue[0].qty >= w.remaining {
        assert r == c;
        assert r.tape[k..] == [c.tape[k]];
      } else {
        ConsumeShrinks(w', order, time, poolId);
        WalkWithinButLast(side, c, order, time, poolId);
        WalkTrades(side, c, order, time, poolId);
        var ts := r.tape[k..];
        assert ts[0] == c.tape[k] by {
          assert r.tape[k] == r.tape[..k + 1][k];
        }
        assert ts[1..] == r.tape[k + 1..];
        forall i | 0 <= i < |ts| - 1
          ensures ts[i].Trade? && EqualOrBetter(side, ts[i].price, order.price)
        {
          if i > 0 {
            assert ts[i] == ts[1..][i - 1];
          }
        }
      }
    } else {
      assert r.tape[|w.tape|..] == [];
    }
  }

  /** A MKT, FOK or AON order trades at its own price or better on every
      trade but its last, which may be at a worse price: the price check
      stops the walk only after the trade at the level it rejects. A MKT
      order of positive quantity trades at least once whenever the book is
      not empty, whatever its price. */
  lemma TakeWithinButLast(b: HalfBook, time: real, order: Order, poolId: string)
    requires order.ostyle != ImmediateOrCancel
    ensures
      var r := BookTake(b, time, order, poolId);
      r.Ok? ==> WithinButLast(r.value.tape, b.side, order.price)
    ensures
      order.ostyle == Market && order.qty > 0 && |Lob(b)| > 0 && !order.otype.OtherType? ==>
        |BookTake(b, time, order, poolId).value.tape| > 0
  {
    var r := BookTake(b, time, order, poolId);
    if r.Ok? && !TakeRejected(b, order) {
      LobQueuesNonEmpty(b);
      StartInStep(b);
      var w0 := StartWalk(b, order);
      WalkWithinButLast(b.side, w0, order, time, poolId);
      var w := WalkBook(b.side, w0, order, time, poolId);
      assert w.tape[0..] == w.tape;
      if order.ostyle == Market && order.qty > 0 {
        InStepNonEmpty(w0.levels, w0.orders);
        var gp := EqualOrBetter(b.side, w0.levels[0].price, order.price);
        var c := Consume(w0.(goodPrice := gp), order, time, poolId);
        ConsumeFacts(w0.(goodPrice := gp), order, time, poolId);
        WalkTrades(b.side, c, order, time, poolId);
        assert w == WalkBook(b.side, c, order, time, poolId);
      }
    }
  }
}
