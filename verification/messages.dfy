/** The value records exchanged between traders and the BSE2 exchange:
    a customer's Assignment, the Order a trader submits, and the message the
    exchange sends back. Python stores string tokens for the order type and
    style; here they are datatypes, each with a catch-all constructor for any
    other token so that the engine's fatal "unknown token" branches exist. */
module Messages {
  import opened Wrappers

  /** The order type token: which side of the book the order is for. */
  datatype OType = Bid | Ask | OtherType(token: string)

  /** A side of a book. A book is never built for any other token. */
  type BookSide = t: OType | t.Bid? || t.Ask? witness Bid

  /** The order style token (LIM, MKT, IOC, FOK, AON, GFD, LOO, MOO, LOC, MOC,
      CAN, XXX, OCO, OSO, ICE) plus any other token. */
  datatype Style =
    | Limit | Market | ImmediateOrCancel | FillOrKill | AllOrNone | GoodForDay
    | LimitOnOpen | MarketOnOpen | LimitOnClose | MarketOnClose
    | Cancel | CancelAll | OneCancelsOther | OneSendsOther | Iceberg
    | OtherStyle(token: string)

  /** The event kinds of an exchange message: ACK, PART, FILL and FAIL, plus
      CAN which the engine emits for a cancellation. */
  datatype EventKind = Ack | Part | Fill | Fail | Can

  /** A customer order assigned to a trader. */
  datatype Assignment = Assignment(
    custId: string,
    tradId: string,
    atype: OType,
    astyle: Style,
    price: int,
    qty: int,
    time: real,
    endtime: Option<real>,
    assignmentId: int)

  /** Style-specific parameters: an AON expiry time or the two legs of an
      OCO/OSO pair. */
  datatype StyleParams = ExpiryTime(expiry: real) | Legs(first: Order, second: Order)

  /** An order or quote as submitted by a trader. `orderid` is assigned by the
      exchange; `myref` links back to the trader's assignment. */
  datatype Order = Order(
    tid: string,
    otype: OType,
    ostyle: Style,
    price: int,
    qty: int,
    time: real,
    endtime: Option<real>,
    orderid: int,
    myref: Option<int>,
    styleparams: Option<StyleParams>)

  /** One execution (price, quantity) reported to a trader. */
  datatype Transaction = Transaction(price: int, qty: int)

  /** A message from the exchange to one trader about one order. */
  datatype ExchMsg = ExchMsg(
    tid: string,
    oid: int,
    event: EventKind,
    trns: seq<Transaction>,
    revo: Option<Order>,
    fee: int,
    balance: int)

  function NewAssignment(custId: string, tradId: string, atype: OType, astyle: Style,
                         price: int, qty: int, time: real, endtime: Option<real>,
                         assignmentId: int): (a: Assignment)
    ensures a.custId == custId && a.tradId == tradId
    ensures a.atype == atype && a.astyle == astyle
    ensures a.price == price && a.qty == qty
    ensures a.time == time && a.endtime == endtime
    ensures a.assignmentId == assignmentId
  {
    Assignment(custId, tradId, atype, astyle, price, qty, time, endtime, assignmentId)
  }

  /** A fresh order: the eight arguments are stored unchanged and the
      trader's reference and the style parameters start out empty. */
  function NewOrder(tid: string, otype: OType, ostyle: Style, price: int, qty: int,
                    time: real, endtime: Option<real>, orderid: int): (o: Order)
    ensures o.tid == tid && o.otype == otype && o.ostyle == ostyle
    ensures o.price == price && o.qty == qty && o.time == time
    ensures o.endtime == endtime && o.orderid == orderid
    ensures o.myref.None? && o.styleparams.None?
  {
    Order(tid, otype, ostyle, price, qty, time, endtime, orderid, None, None)
  }

  function NewExchMsg(tid: string, oid: int, event: EventKind, trns: seq<Transaction>,
                      revo: Option<Order>, fee: int, balance: int): (m: ExchMsg)
    ensures m.tid == tid && m.oid == oid && m.event == event
    ensures m.trns == trns && m.revo == revo
    ensures m.fee == fee && m.balance == balance
  {
    ExchMsg(tid, oid, event, trns, revo, fee, balance)
  }
}
