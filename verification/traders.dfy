/** A BSE2 trader's records of the customer orders (assignments) it is
    working and of its quotes live on the exchange, and the bookkeeping it
    does on every message from the exchange. A trader is a value: every
    operation returns the updated trader instead of changing it in place. */
module Traders {
  import opened Wrappers
  import opened Messages

  /** The parts of a trader that the modelled operations read or write.
      `blotter` pairs each exchange message with the balance after it was
      booked; `lastquote` is the most recent quote the strategy produced. */
  datatype Trader = Trader(
    tid: string,
    balance: int,
    birthtime: real,
    blotter: seq<(ExchMsg, int)>,
    orders: seq<Assignment>,
    maxCustOrders: int,
    quotes: seq<Order>,
    nTrades: int,
    lastquote: Option<Order>)

  /** A new trader works at most one customer order at a time. */
  function NewTrader(tid: string, balance: int, time: real): Trader {
    Trader(tid, balance, time, [], [], 1, [], 0, None)
  }

  /** The trader works no more customer orders than its limit allows. */
  predicate WithinLimit(t: Trader) {
    1 <= t.maxCustOrders && |t.orders| <= t.maxCustOrders
  }

  lemma NewTraderWithinLimit(tid: string, balance: int, time: real)
    ensures WithinLimit(NewTrader(tid, balance, time))
    ensures NewTrader(tid, balance, time).orders == [] && NewTrader(tid, balance, time).quotes == []
  {
  }

  // ----- Sequences filtered and searched -----

  /** The elements of `s` that satisfy `keep`, in their original order. */
  function Filter<T>(s: seq<T>, keep: T -> bool): seq<T>
    decreases |s|
  {
    if |s| == 0 then [] else (if keep(s[0]) then [s[0]] else []) + Filter(s[1..], keep)
  }

  /** `r` is obtained from `s` by deleting zero or more elements. */
  predicate IsSubseq<T(==)>(r: seq<T>, s: seq<T>)
    decreases |s|
  {
    if |r| == 0 then true
    else if |s| == 0 then false
    else if r[0] == s[0] then IsSubseq(r[1..], s[1..])
    else IsSubseq(r, s[1..])
  }

  /** Filtering keeps exactly the elements that satisfy the predicate, and
      keeps them in order. */
  lemma {:induction false} FilterSpec<T>(s: seq<T>, keep: T -> bool)
    ensures forall x :: x in Filter(s, keep) <==> x in s && keep(x)
    ensures forall i :: 0 <= i < |Filter(s, keep)| ==> keep(Filter(s, keep)[i])
    ensures IsSubseq(Filter(s, keep), s)
    ensures |Filter(s, keep)| <= |s|
    decreases |s|
  {
    if |s| > 0 {
      FilterSpec(s[1..], keep);
      var f := Filter(s, keep);
      assert s == [s[0]] + s[1..];
      if keep(s[0]) {
        assert f[1..] == Filter(s[1..], keep);
      } else {
        assert f == Filter(s[1..], keep);
        if |f| > 0 {
          assert f[0] in f;
        }
      }
    }
  }

  /** Filtering with a predicate every element satisfies changes nothing. */
  lemma {:induction false} FilterAllKept<T>(s: seq<T>, keep: T -> bool)
    requires forall i :: 0 <= i < |s| ==> keep(s[i])
    ensures Filter(s, keep) == s
    decreases |s|
  {
    if |s| > 0 {
      FilterAllKept(s[1..], keep);
      assert s == [s[0]] + s[1..];
    }
  }

  /** Filtering twice with the same predicate is filtering once. */
  lemma FilterIdempotent<T>(s: seq<T>, keep: T -> bool)
    ensures Filter(Filter(s, keep), keep) == Filter(s, keep)
  {
    FilterSpec(s, keep);
    FilterAllKept(Filter(s, keep), keep);
  }

  /** The first element of `s` that satisfies `p`, if any. */
  function First<T>(s: seq<T>, p: T -> bool): (r: Option<T>)
    ensures r.None? <==> forall i :: 0 <= i < |s| ==> !p(s[i])
    ensures r.Some? ==> exists i :: 0 <= i < |s| && s[i] == r.value && p(s[i])
                                    && forall j :: 0 <= j < i ==> !p(s[j])
    decreases |s|
  {
    if |s| == 0 then None
    else if p(s[0]) then Some(s[0])
    else
      var r := First(s[1..], p);
      assert forall i :: 1 <= i < |s| ==> s[i] == s[1..][i - 1];
      r
  }

  // ----- Customer orders -----

  /** Whether the trader has a quote live on the exchange when a new customer
      order arrives: if so, that quote must be withdrawn. */
  datatype Response = LobCancel | Proceed

  /** Python's `s[1:]`, which is empty for an empty list. */
  function DropFirst<T>(s: seq<T>): seq<T> {
    if |s| == 0 then [] else s[1..]
  }

  /** `add_cust_order`: the new assignment is appended; when the trader is
      already working its maximum number of orders, the oldest is dropped. */
  function AddCustOrder(t: Trader, a: Assignment): (r: (Trader, Response))
    ensures r.1 == LobCancel <==> |t.quotes| > 0
    ensures r.0 == t.(orders := r.0.orders)
  {
    var kept := if |t.orders| >= t.maxCustOrders then DropFirst(t.orders) else t.orders;
    (t.(orders := kept + [a]), if |t.quotes| > 0 then LobCancel else Proceed)
  }

  /** Adding a customer order keeps the newest orders, ending with the new
      one, and never lets the trader work more orders than its limit. */
  lemma AddCustOrderSpec(t: Trader, a: Assignment)
    requires WithinLimit(t)
    ensures var os := AddCustOrder(t, a).0.orders;
      && WithinLimit(AddCustOrder(t, a).0)
      && |os| == (if |t.orders| < t.maxCustOrders then |t.orders| + 1 else t.maxCustOrders)
      && os == (t.orders + [a])[|t.orders| + 1 - |os|..]
      && os[|os| - 1] == a
  {
    var os := AddCustOrder(t, a).0.orders;
    if |t.orders| >= t.maxCustOrders {
      assert os == t.orders[1..] + [a];
      assert (t.orders + [a])[1..] == t.orders[1..] + [a];
    } else {
      assert (t.orders + [a])[0..] == t.orders + [a];
    }
  }

  function OtherAssignment(id: int): Assignment -> bool {
    (a: Assignment) => a.assignmentId != id
  }

  /** `del_cust_order`: every assignment with the given id is dropped. */
  function DelCustOrder(t: Trader, id: int): (r: Trader)
    ensures forall a :: a in r.orders <==> a in t.orders && a.assignmentId != id
    ensures IsSubseq(r.orders, t.orders) && |r.orders| <= |t.orders|
    ensures r == t.(orders := r.orders)
  {
    FilterSpec(t.orders, OtherAssignment(id));
    t.(orders := Filter(t.orders, OtherAssignment(id)))
  }

  /** Deleting an id the trader is not working changes nothing, and deleting
      the same id twice is deleting it once. */
  lemma DelCustOrderAbsent(t: Trader, id: int)
    ensures (forall i :: 0 <= i < |t.orders| ==> t.orders[i].assignmentId != id) ==> DelCustOrder(t, id) == t
    ensures DelCustOrder(DelCustOrder(t, id), id) == DelCustOrder(t, id)
  {
    if forall i :: 0 <= i < |t.orders| ==> t.orders[i].assignmentId != id {
      FilterAllKept(t.orders, OtherAssignment(id));
    }
    FilterIdempotent(t.orders, OtherAssignment(id));
  }

  /** The assignments with every one carrying `id` given quantity `qty`. */
  function Revise(os: seq<Assignment>, id: int, qty: int): (r: seq<Assignment>)
    ensures |r| == |os|
    decreases |os|
  {
    if |os| == 0 then []
    else [if os[0].assignmentId == id then os[0].(qty := qty) else os[0]] + Revise(os[1..], id, qty)
  }

  /** `revise_cust_order`: the assignments with the given id take the
      quantity of the revised order; nothing else changes. */
  function ReviseCustOrder(t: Trader, id: int, qty: int): (r: Trader)
    ensures |r.orders| == |t.orders|
    ensures r == t.(orders := r.orders)
  {
    t.(orders := Revise(t.orders, id, qty))
  }

  /** Revising changes only the quantity of the assignments with that id, in
      place; every other assignment is untouched. */
  lemma {:induction false} ReviseSpec(os: seq<Assignment>, id: int, qty: int)
    ensures forall i :: 0 <= i < |os| ==>
      && Revise(os, id, qty)[i].(qty := os[i].qty) == os[i]
      && (os[i].assignmentId == id ==> Revise(os, id, qty)[i].qty == qty)
      && (os[i].assignmentId != id ==> Revise(os, id, qty)[i] == os[i])
    decreases |os|
  {
    if |os| > 0 {
      ReviseSpec(os[1..], id, qty);
      var r := Revise(os, id, qty);
      assert forall i :: 1 <= i < |os| ==> r[i] == Revise(os[1..], id, qty)[i - 1] && os[i] == os[1..][i - 1];
    }
  }

  /** Deleting an assignment after revising it is deleting it: a revision
      leaves no trace on the other assignments. */
  lemma {:induction false} DelAfterRevise(os: seq<Assignment>, id: int, qty: int)
    ensures Filter(Revise(os, id, qty), OtherAssignment(id)) == Filter(os, OtherAssignment(id))
    decreases |os|
  {
    if |os| > 0 {
      DelAfterRevise(os[1..], id, qty);
      var r := Revise(os, id, qty);
      assert r[1..] == Revise(os[1..], id, qty);
    }
  }

  /** A second revision of the same assignment overrides the first. */
  lemma {:induction false} ReviseTwice(os: seq<Assignment>, id: int, q1: int, q2: int)
    ensures Revise(Revise(os, id, q1), id, q2) == Revise(os, id, q2)
    decreases |os|
  {
    if |os| > 0 {
      ReviseTwice(os[1..], id, q1, q2);
      var r := Revise(os, id, q1);
      assert r[1..] == Revise(os[1..], id, q1);
    }
  }

  // ----- Quotes live on the exchange -----

  function OtherQuote(oid: int): Order -> bool {
    (q: Order) => q.orderid != oid
  }

  /** `del_exch_order`, and the quote update on a CAN message: every quote
      with the given exchange order id is dropped. */
  function DelExchOrder(t: Trader, oid: int): (r: Trader)
    ensures forall q :: q in r.quotes <==> q in t.quotes && q.orderid != oid
    ensures IsSubseq(r.quotes, t.quotes) && |r.quotes| <= |t.quotes|
    ensures r == t.(quotes := r.quotes)
  {
    FilterSpec(t.quotes, OtherQuote(oid));
    t.(quotes := Filter(t.quotes, OtherQuote(oid)))
  }

  function HasOrderId(oid: int): Order -> bool {
    (q: Order) => q.orderid == oid
  }

  function ForRef(ref: Option<int>): Assignment -> bool {
    (a: Assignment) => Some(a.assignmentId) == ref
  }

  /** The quote a FILL or PART message is about: the first live quote with
      the message's order id. */
  function FindQuote(qs: seq<Order>, oid: int): (r: Option<Order>)
    ensures r.None? <==> forall i :: 0 <= i < |qs| ==> qs[i].orderid != oid
    ensures r.Some? ==> r.value in qs && r.value.orderid == oid
  {
    First(qs, HasOrderId(oid))
  }

  /** The quote search as `bookkeep` writes it: the `break` sits outside the
      `if`, so the loop stops after the first quote whatever it holds. */
  function FindQuoteAsWritten(qs: seq<Order>, oid: int): (r: Option<Order>)
    ensures r.Some? ==> r.value in qs && r.value.orderid == oid
  {
    if |qs| > 0 && qs[0].orderid == oid then Some(qs[0]) else None
  }

  /** With at most one live quote the two searches agree. */
  lemma FindQuoteAgrees(qs: seq<Order>, oid: int)
    requires |qs| <= 1
    ensures FindQuoteAsWritten(qs, oid) == FindQuote(qs, oid)
  {
  }

  /** With two live quotes the search as written misses the second. */
  lemma FindQuoteAsWrittenMissesSecond(q1: Order, q2: Order)
    requires q1.orderid != q2.orderid
    ensures FindQuoteAsWritten([q1, q2], q2.orderid) == None
    ensures FindQuote([q1, q2], q2.orderid) == Some(q2)
  {
    assert [q1, q2][1] == q2;
  }

  /** The assignment a quote was made for: the first with the quote's
      `myref` as its id. */
  function FindAssignment(os: seq<Assignment>, ref: Option<int>): (r: Option<Assignment>)
    ensures r.None? <==> forall i :: 0 <= i < |os| ==> Some(os[i].assignmentId) != ref
    ensures r.Some? ==> r.value in os && Some(r.value.assignmentId) == ref
  {
    First(os, ForRef(ref))
  }

  // ----- Bookkeeping -----

  /** Surplus of one execution against the customer's limit price: a buyer
      gains what it pays below its limit, a seller what it receives above. */
  function Profit(side: OType, limit: int, tr: Transaction): int {
    if side == Bid then (limit - tr.price) * tr.qty else (tr.price - limit) * tr.qty
  }

  function TotalProfit(side: OType, limit: int, trns: seq<Transaction>): int
    decreases |trns|
  {
    if |trns| == 0 then 0 else Profit(side, limit, trns[0]) + TotalProfit(side, limit, trns[1..])
  }

  lemma {:induction false} TotalProfitNonNegative(side: OType, limit: int, trns: seq<Transaction>)
    requires forall i :: 0 <= i < |trns| ==> Profit(side, limit, trns[i]) >= 0
    ensures TotalProfit(side, limit, trns) >= 0
    decreases |trns|
  {
    if |trns| > 0 {
      assert forall i :: 1 <= i < |trns| ==> trns[1..][i - 1] == trns[i];
      TotalProfitNonNegative(side, limit, trns[1..]);
    }
  }

  /** The trader module never imports `sys`, so each of its `sys.exit(...)`
      calls stops the program with a NameError instead of the intended
      exit message ("FAIL: bookkeep() cant find order", "Exit: Negative
      profit"). */
  const NoSys := Crash("NameError: global name 'sys' is not defined")

  /** A search for a quote by exchange order id. */
  type Finder = (seq<Order>, int) -> Option<Order>

  /** The transaction loop of `bookkeep` over the executions still to book.
      Each one looks up the quote and its assignment, adds the profit to the
      balance, counts a trade, divides the balance by the trader's age, and
      stops the program on a loss. `found` is the last quote and assignment
      looked up, which the code after the loop uses. */
  function Settle(t: Trader, msg: ExchMsg, trns: seq<Transaction>, time: real,
                  find: Finder, found: Option<(Order, Assignment)>): Result<(Trader, Option<(Order, Assignment)>)>
    decreases |trns|
  {
    if |trns| == 0 then Ok((t, found))
    else
      var exch := find(t.quotes, msg.oid);
      if exch.None? then Err(NoSys)
      else
        var cust := FindAssignment(t.orders, exch.value.myref);
        if cust.None? then Err(Crash("AttributeError: 'NoneType' object has no attribute 'price'"))
        else
          var profit := Profit(exch.value.otype, cust.value.price, trns[0]);
          var t1 := t.(balance := t.balance + profit, nTrades := t.nTrades + 1);
          if time - t.birthtime == 0.0 then Err(Crash("ZeroDivisionError: float division by zero"))
          else if profit < 0 then Err(NoSys)
          else Settle(t1, msg, trns[1..], time, find, Some((exch.value, cust.value)))
  }

  /** The conditions under which the transaction loop books every execution:
      the quote and its assignment are found, the trader is older than zero,
      and no execution loses money. */
  ghost predicate Bookable(t: Trader, msg: ExchMsg, trns: seq<Transaction>, time: real, find: Finder) {
    && find(t.quotes, msg.oid).Some?
    && FindAssignment(t.orders, find(t.quotes, msg.oid).value.myref).Some?
    && time - t.birthtime != 0.0
    && var side := find(t.quotes, msg.oid).value.otype;
       var limit := FindAssignment(t.orders, find(t.quotes, msg.oid).value.myref).value.price;
       forall i :: 0 <= i < |trns| ==> Profit(side, limit, trns[i]) >= 0
  }

  /** The loop succeeds on a non-empty list exactly when every execution is
      bookable. */
  lemma {:induction false} SettleOk(t: Trader, msg: ExchMsg, trns: seq<Transaction>, time: real,
                                    find: Finder, found: Option<(Order, Assignment)>)
    requires |trns| > 0
    ensures Settle(t, msg, trns, time, find, found).Ok? <==> Bookable(t, msg, trns, time, find)
    decreases |trns|
  {
    var exch := find(t.quotes, msg.oid);
    if exch.Some? && FindAssignment(t.orders, exch.value.myref).Some? {
      var e := exch.value;
      var a := FindAssignment(t.orders, e.myref).value;
      var profit := Profit(e.otype, a.price, trns[0]);
      var t1 := t.(balance := t.balance + profit, nTrades := t.nTrades + 1);
      assert forall i :: 1 <= i < |trns| ==> trns[1..][i - 1] == trns[i];
      if |trns| > 1 {
        SettleOk(t1, msg, trns[1..], time, find, Some((e, a)));
        assert Bookable(t, msg, trns, time, find) <==>
          (time - t.birthtime != 0.0 && profit >= 0 && Bookable(t1, msg, trns[1..], time, find));
      }
    }
  }

  /** On success the loop adds the total profit to the balance, counts one
      trade per execution and reports the quote and assignment it used;
      nothing else about the trader changes. */
  lemma {:induction false} SettleValue(t: Trader, msg: ExchMsg, trns: seq<Transaction>, time: real,
                                       find: Finder, found: Option<(Order, Assignment)>)
    requires |trns| > 0
    requires Settle(t, msg, trns, time, find, found).Ok?
    ensures find(t.quotes, msg.oid).Some?
    ensures FindAssignment(t.orders, find(t.quotes, msg.oid).value.myref).Some?
    ensures
      var e := find(t.quotes, msg.oid).value;
      var a := FindAssignment(t.orders, e.myref).value;
      Settle(t, msg, trns, time, find, found).value
        == (t.(balance := t.balance + TotalProfit(e.otype, a.price, trns), nTrades := t.nTrades + |trns|), Some((e, a)))
    decreases |trns|
  {
    var e := find(t.quotes, msg.oid).value;
    var a := FindAssignment(t.orders, e.myref).value;
    var t1 := t.(balance := t.balance + Profit(e.otype, a.price, trns[0]), nTrades := t.nTrades + 1);
    if |trns| > 1 {
      SettleValue(t1, msg, trns[1..], time, find, Some((e, a)));
    }
  }

  /** What `bookkeep` does after the loop for a FILL or PART message: a fill
      completes the customer order and removes the quote; a partial fill
      takes the remaining quantity from the revised order, and an IOC quote
      is removed too because the exchange cancelled its remainder. */
  function Settled(t: Trader, msg: ExchMsg, time: real, find: Finder): Result<Trader> {
    var s :- Settle(t, msg, msg.trns, time, find, None);
    if s.1.None? then Err(Crash("UnboundLocalError: local variable 'exch_order' referenced before assignment"))
    else
      var e := s.1.value.0;
      var a := s.1.value.1;
      if msg.event == Fill then Ok(DelExchOrder(DelCustOrder(s.0, a.assignmentId), e.orderid))
      else if msg.revo.None? then Err(Crash("AttributeError: 'NoneType' object has no attribute 'qty'"))
      else
        var revised := ReviseCustOrder(s.0, a.assignmentId, msg.revo.value.qty);
        Ok(if e.ostyle == ImmediateOrCancel then DelExchOrder(revised, e.orderid) else revised)
  }

  /** `bookkeep` with a given quote search: a CAN message drops the
      cancelled quote, FILL and PART messages are settled, and every message
      that does not stop the program is appended to the blotter with the
      balance after it. */
  function BookkeepWith(t: Trader, msg: ExchMsg, time: real, find: Finder): Result<Trader> {
    var t1 := if msg.event == Can then DelExchOrder(t, msg.oid) else t;
    var t2 :- if msg.event == Fill || msg.event == Part then Settled(t1, msg, time, find) else Ok(t1);
    Ok(t2.(blotter := t2.blotter + [(msg, t2.balance)]))
  }

  /** `bookkeep`, with the quote search finding the quote wherever it is. */
  function Bookkeep(t: Trader, msg: ExchMsg, time: real): Result<Trader> {
    BookkeepWith(t, msg, time, FindQuote)
  }

  /** `bookkeep` as written: only the first live quote is ever examined. */
  function BookkeepAsWritten(t: Trader, msg: ExchMsg, time: real): Result<Trader> {
    BookkeepWith(t, msg, time, FindQuoteAsWritten)
  }

  /** A CAN message removes the cancelled quote and keeps every other one;
      assignments and balance are untouched. */
  lemma BookkeepCan(t: Trader, msg: ExchMsg, time: real)
    requires msg.event == Can
    ensures Bookkeep(t, msg, time).Ok?
    ensures var u := Bookkeep(t, msg, time).value;
      && (forall q :: q in u.quotes <==> q in t.quotes && q.orderid != msg.oid)
      && u.orders == t.orders && u.balance == t.balance && u.nTrades == t.nTrades
      && u.blotter == t.blotter + [(msg, t.balance)]
  {
  }

  /** An acknowledgement or a failure notice is only recorded. */
  lemma BookkeepRecordsOnly(t: Trader, msg: ExchMsg, time: real)
    requires msg.event == Ack || msg.event == Fail
    ensures Bookkeep(t, msg, time) == Ok(t.(blotter := t.blotter + [(msg, t.balance)]))
  {
  }

  /** A message carrying no executions stops the program: the code after
      the loop reads a quote the loop never looked up. */
  lemma BookkeepNoTransactions(t: Trader, msg: ExchMsg, time: real)
    requires msg.event == Fill || msg.event == Part
    requires |msg.trns| == 0
    ensures Bookkeep(t, msg, time).Err?
  {
  }

  /** A FILL is booked exactly when its executions are bookable; the balance
      then grows by their total profit, one trade is counted per execution,
      and both the customer order and the quote are gone. */
  lemma BookkeepFill(t: Trader, msg: ExchMsg, time: real)
    requires msg.event == Fill && |msg.trns| > 0
    ensures Bookkeep(t, msg, time).Ok? <==> Bookable(t, msg, msg.trns, time, FindQuote)
    ensures Bookkeep(t, msg, time).Ok? ==>
      var u := Bookkeep(t, msg, time).value;
      var e := FindQuote(t.quotes, msg.oid).value;
      var a := FindAssignment(t.orders, e.myref).value;
      && u.balance == t.balance + TotalProfit(e.otype, a.price, msg.trns)
      && u.nTrades == t.nTrades + |msg.trns|
      && (forall b :: b in u.orders <==> b in t.orders && b.assignmentId != a.assignmentId)
      && (forall q :: q in u.quotes <==> q in t.quotes && q.orderid != msg.oid)
      && u.blotter == t.blotter + [(msg, u.balance)]
  {
    SettleOk(t, msg, msg.trns, time, FindQuote, None);
    if Settle(t, msg, msg.trns, time, FindQuote, None).Ok? {
      SettleValue(t, msg, msg.trns, time, FindQuote, None);
    }
  }

  /** A PART is booked exactly when its executions are bookable and it
      carries the revised order; the assignment then takes the revised
      quantity, and the quote stays live unless it is immediate-or-cancel. */
  lemma BookkeepPart(t: Trader, msg: ExchMsg, time: real)
    requires msg.event == Part && |msg.trns| > 0
    ensures Bookkeep(t, msg, time).Ok? <==> Bookable(t, msg, msg.trns, time, FindQuote) && msg.revo.Some?
    ensures Bookkeep(t, msg, time).Ok? ==>
      var u := Bookkeep(t, msg, time).value;
      var e := FindQuote(t.quotes, msg.oid).value;
      var a := FindAssignment(t.orders, e.myref).value;
      && u.balance == t.balance + TotalProfit(e.otype, a.price, msg.trns)
      && u.nTrades == t.nTrades + |msg.trns|
      && u.orders == Revise(t.orders, a.assignmentId, msg.revo.value.qty)
      && (e.ostyle == ImmediateOrCancel ==> forall q :: q in u.quotes <==> q in t.quotes && q.orderid != msg.oid)
      && (e.ostyle != ImmediateOrCancel ==> u.quotes == t.quotes)
      && u.blotter == t.blotter + [(msg, u.balance)]
  {
    SettleOk(t, msg, msg.trns, time, FindQuote, None);
    if Settle(t, msg, msg.trns, time, FindQuote, None).Ok? {
      SettleValue(t, msg, msg.trns, time, FindQuote, None);
    }
  }

  /** Bookkeeping never lowers the balance: any loss stops the program. */
  lemma BookkeepNeverLoses(t: Trader, msg: ExchMsg, time: real)
    ensures Bookkeep(t, msg, time).Ok? ==> Bookkeep(t, msg, time).value.balance >= t.balance
  {
    if (msg.event == Fill || msg.event == Part) && |msg.trns| > 0 && Bookkeep(t, msg, time).Ok? {
      SettleOk(t, msg, msg.trns, time, FindQuote, None);
      SettleValue(t, msg, msg.trns, time, FindQuote, None);
      var e := FindQuote(t.quotes, msg.oid).value;
      var a := FindAssignment(t.orders, e.myref).value;
      TotalProfitNonNegative(e.otype, a.price, msg.trns);
    }
  }

  /** Bookkeeping never adds a customer order, so a trader within its limit
      stays within it. */
  lemma BookkeepKeepsLimit(t: Trader, msg: ExchMsg, time: real)
    requires WithinLimit(t)
    ensures Bookkeep(t, msg, time).Ok? ==> WithinLimit(Bookkeep(t, msg, time).value)
  {
    if (msg.event == Fill || msg.event == Part) && Settle(t, msg, msg.trns, time, FindQuote, None).Ok? {
      var s := Settle(t, msg, msg.trns, time, FindQuote, None).value;
      if |msg.trns| > 0 {
        SettleValue(t, msg, msg.trns, time, FindQuote, None);
        assert s.0.orders == t.orders && s.0.maxCustOrders == t.maxCustOrders;
      }
    }
  }

  /** The transaction loop never changes the quotes, so the two searches
      see the same list on every execution. */
  lemma {:induction false} SettleAgrees(t: Trader, msg: ExchMsg, trns: seq<Transaction>, time: real,
                                        found: Option<(Order, Assignment)>)
    requires |t.quotes| <= 1
    ensures Settle(t, msg, trns, time, FindQuoteAsWritten, found) == Settle(t, msg, trns, time, FindQuote, found)
    decreases |trns|
  {
    FindQuoteAgrees(t.quotes, msg.oid);
    if |trns| > 0 {
      var exch := FindQuote(t.quotes, msg.oid);
      if exch.Some? {
        var cust := FindAssignment(t.orders, exch.value.myref);
        if cust.Some? {
          var profit := Profit(exch.value.otype, cust.value.price, trns[0]);
          var t1 := t.(balance := t.balance + profit, nTrades := t.nTrades + 1);
          SettleAgrees(t1, msg, trns[1..], time, Some((exch.value, cust.value)));
        }
      }
    }
  }

  /** While a trader has at most one live quote, the misplaced `break` does
      no harm. */
  lemma BookkeepAsWrittenAgrees(t: Trader, msg: ExchMsg, time: real)
    requires |t.quotes| <= 1
    ensures BookkeepAsWritten(t, msg, time) == Bookkeep(t, msg, time)
  {
    if msg.event != Can {
      SettleAgrees(t, msg, msg.trns, time, None);
      assert Settled(t, msg, time, FindQuoteAsWritten) == Settled(t, msg, time, FindQuote);
    }
  }

  /** With two live quotes, a fill of the second one stops the program in
      `bookkeep` as written, although the quote is there to be found. */
  lemma BookkeepAsWrittenMissesFill()
    ensures var a := Assignment("C1", "B00", Bid, Limit, 100, 1, 0.0, None, 7);
      var q1 := Order("B00", Bid, Limit, 90, 1, 1.0, None, 1, Some(7), None);
      var q2 := Order("B00", Bid, Limit, 95, 1, 2.0, None, 2, Some(7), None);
      var t := Trader("B00", 0, 0.0, [], [a], 1, [q1, q2], 0, None);
      var msg := ExchMsg("B00", 2, Fill, [Transaction(95, 1)], None, 0, 0);
      && BookkeepAsWritten(t, msg, 3.0).Err?
      && Bookkeep(t, msg, 3.0).Ok?
      && Bookkeep(t, msg, 3.0).value.balance == 5
  {
    var a := Assignment("C1", "B00", Bid, Limit, 100, 1, 0.0, None, 7);
    var q1 := Order("B00", Bid, Limit, 90, 1, 1.0, None, 1, Some(7), None);
    var q2 := Order("B00", Bid, Limit, 95, 1, 2.0, None, 2, Some(7), None);
    var t := Trader("B00", 0, 0.0, [], [a], 1, [q1, q2], 0, None);
    var msg := ExchMsg("B00", 2, Fill, [Transaction(95, 1)], None, 0, 0);
    FindQuoteAsWrittenMissesSecond(q1, q2);
    assert FindAssignment([a], Some(7)) == Some(a) by {
      assert ForRef(Some(7))([a][0]);
    }
    assert Profit(Bid, 100, Transaction(95, 1)) == 5;
  }
}
