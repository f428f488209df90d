/** How BSE2 turns the live orders of one book side into its limit order book
    (`Orderbook_half.build_lob`): price levels best-first (bids descending, asks
    ascending), each holding the level's orders as (time, qty, tid, oid)
    entries sorted in Python's list order, plus the anonymised
    (price, total quantity) list that is published. */
module Bse2Lob {
  import opened Messages
  import opened Strings
  import opened Depth

  /** The exchange's record of one resting order inside a price level. */
  datatype LobEntry = LobEntry(time: real, qty: int, tid: string, oid: int)

  datatype Level = Level(price: int, queue: seq<LobEntry>)

  /** A queue entry tagged with the price of its level. */
  datatype PricedEntry = PricedEntry(price: int, entry: LobEntry)

  function EntryOf(o: Order): LobEntry {
    LobEntry(o.time, o.qty, o.tid, o.orderid)
  }

  /** Python's `<` on the lists [time, qty, tid, oid]: arrival time first,
      then quantity, then trader id, then order id. */
  predicate EntryLt(a: LobEntry, b: LobEntry) {
    || a.time < b.time
    || (a.time == b.time && a.qty < b.qty)
    || (a.time == b.time && a.qty == b.qty && StrLt(a.tid, b.tid))
    || (a.time == b.time && a.qty == b.qty && a.tid == b.tid && a.oid < b.oid)
  }

  predicate EntryLe(a: LobEntry, b: LobEntry) {
    a == b || EntryLt(a, b)
  }

  lemma EntryLeTotal(a: LobEntry, b: LobEntry)
    ensures EntryLe(a, b) || EntryLe(b, a)
  {
    StrLtTrichotomy(a.tid, b.tid);
  }

  lemma EntryLeTransitive(a: LobEntry, b: LobEntry, c: LobEntry)
    requires EntryLe(a, b) && EntryLe(b, c)
    ensures EntryLe(a, c)
  {
    if StrLt(a.tid, b.tid) && StrLt(b.tid, c.tid) {
      StrLtTransitive(a.tid, b.tid, c.tid);
    }
  }

  /** `equaltoorbetterthan`: for bids a higher price is better, for asks a
      lower one. */
  predicate EqualOrBetter(side: BookSide, p1: int, p2: int) {
    if side == Bid then p1 >= p2 else p1 <= p2
  }

  predicate Better(side: BookSide, p1: int, p2: int) {
    if side == Bid then p1 > p2 else p1 < p2
  }

  /** Each entry is at most its successor. */
  predicate SortedQueue(q: seq<LobEntry>) {
    |q| <= 1 || (EntryLe(q[0], q[1]) && SortedQueue(q[1..]))
  }

  /** Each level's price is strictly better than the next level's. */
  predicate BestFirst(side: BookSide, levels: seq<Level>) {
    |levels| <= 1 || (Better(side, levels[0].price, levels[1].price) && BestFirst(side, levels[1..]))
  }

  predicate WellFormed(side: BookSide, levels: seq<Level>) {
    && BestFirst(side, levels)
    && forall i :: 0 <= i < |levels| ==> |levels[i].queue| > 0 && SortedQueue(levels[i].queue)
  }

  function SumQty(q: seq<LobEntry>): int {
    if |q| == 0 then 0 else q[0].qty + SumQty(q[1..])
  }

  function Tag(price: int, q: seq<LobEntry>): (r: seq<PricedEntry>)
    ensures |r| == |q|
  {
    if |q| == 0 then [] else [PricedEntry(price, q[0])] + Tag(price, q[1..])
  }

  /** All entries of the book, best level first, each level front to back. */
  function Flatten(levels: seq<Level>): seq<PricedEntry> {
    if |levels| == 0 then [] else Tag(levels[0].price, levels[0].queue) + Flatten(levels[1..])
  }

  /** Total quantity resting at price `p`. */
  function DepthAt(levels: seq<Level>, p: int): int {
    if |levels| == 0 then 0
    else (if levels[0].price == p then SumQty(levels[0].queue) else 0) + DepthAt(levels[1..], p)
  }

  /** Total quantity of the orders priced at `p`. */
  function PriceDepth(orders: seq<Order>, p: int): int {
    if |orders| == 0 then 0
    else PriceDepth(orders[..|orders| - 1], p)
         + (if orders[|orders| - 1].price == p then orders[|orders| - 1].qty else 0)
  }

  function PricedEntries(orders: seq<Order>): (r: seq<PricedEntry>)
    ensures |r| == |orders|
    ensures forall i :: 0 <= i < |orders| ==> r[i] == PricedEntry(orders[i].price, EntryOf(orders[i]))
  {
    if |orders| == 0 then []
    else PricedEntries(orders[..|orders| - 1])
         + [PricedEntry(orders[|orders| - 1].price, EntryOf(orders[|orders| - 1]))]
  }

  /** Place `e` in front of the first entry it does not follow. */
  function InsertEntry(q: seq<LobEntry>, e: LobEntry): (r: seq<LobEntry>)
    ensures |r| == |q| + 1
    ensures |r| > 0 && (r[0] == e || (|q| > 0 && r[0] == q[0]))
    ensures multiset(r) == multiset(q) + multiset{e}
    ensures SumQty(r) == SumQty(q) + e.qty
  {
    if |q| == 0 then [e]
    else if EntryLe(e, q[0]) then
      assert ([e] + q)[1..] == q;
      [e] + q
    else
      var rest := InsertEntry(q[1..], e);
      assert ([q[0]] + rest)[1..] == rest;
      assert q == [q[0]] + q[1..];
      [q[0]] + rest
  }

  /** Add entry `e` at `price`: into its level's queue when the level exists,
      otherwise as a new level at its best-first position. */
  function AddToLevels(side: BookSide, levels: seq<Level>, price: int, e: LobEntry): (r: seq<Level>)
    ensures |r| > 0
    ensures r[0].price == price || (|levels| > 0 && r[0].price == levels[0].price)
  {
    if |levels| == 0 then [Level(price, [e])]
    else if levels[0].price == price then [Level(price, InsertEntry(levels[0].queue, e))] + levels[1..]
    else if Better(side, price, levels[0].price) then [Level(price, [e])] + levels
    else [levels[0]] + AddToLevels(side, levels[1..], price, e)
  }

  /** `build_lob`: the book built from the live orders. */
  function BuildLob(side: BookSide, orders: seq<Order>): seq<Level> {
    if |orders| == 0 then []
    else
      var o := orders[|orders| - 1];
      AddToLevels(side, BuildLob(side, orders[..|orders| - 1]), o.price, EntryOf(o))
  }

  /** `lob_anon`: one (price, total quantity) pair per level, in book order. */
  function Anon(levels: seq<Level>): (anon: seq<PriceQty>)
    ensures |anon| == |levels|
    ensures forall i :: 0 <= i < |levels| ==> anon[i] == PriceQty(levels[i].price, SumQty(levels[i].queue))
  {
    if |levels| == 0 then [] else [PriceQty(levels[0].price, SumQty(levels[0].queue))] + Anon(levels[1..])
  }

  // ---------------------------------------------------------------------
  // Proofs about the construction.

  lemma {:induction false} InsertEntrySorted(q: seq<LobEntry>, e: LobEntry)
    requires SortedQueue(q)
    ensures SortedQueue(InsertEntry(q, e))
    decreases |q|
  {
    if |q| > 0 && !EntryLe(e, q[0]) {
      EntryLeTotal(e, q[0]);
      InsertEntrySorted(q[1..], e);
      var r := InsertEntry(q, e);
      assert r[1..] == InsertEntry(q[1..], e);
    }
  }

  lemma {:induction false} AddToLevelsWellFormed(side: BookSide, levels: seq<Level>, price: int, e: LobEntry)
    requires WellFormed(side, levels)
    ensures WellFormed(side, AddToLevels(side, levels, price, e))
    decreases |levels|
  {
    var r := AddToLevels(side, levels, price, e);
    if |levels| == 0 {
    } else if levels[0].price == price {
      InsertEntrySorted(levels[0].queue, e);
      assert r[1..] == levels[1..];
    } else if Better(side, price, levels[0].price) {
      assert r[1..] == levels;
    } else {
      AddToLevelsWellFormed(side, levels[1..], price, e);
      assert r[1..] == AddToLevels(side, levels[1..], price, e);
      assert forall i :: 1 <= i < |r| ==> r[i] == r[1..][i - 1];
    }
  }

  lemma {:induction false} TagInsert(price: int, q: seq<LobEntry>, e: LobEntry)
    ensures multiset(Tag(price, InsertEntry(q, e))) == multiset(Tag(price, q)) + multiset{PricedEntry(price, e)}
    decreases |q|
  {
    if |q| > 0 && !EntryLe(e, q[0]) {
      TagInsert(price, q[1..], e);
      var r := InsertEntry(q, e);
      assert r[1..] == InsertEntry(q[1..], e);
      assert Tag(price, r) == [PricedEntry(price, q[0])] + Tag(price, r[1..]);
      assert Tag(price, q) == [PricedEntry(price, q[0])] + Tag(price, q[1..]);
    } else if |q| > 0 {
      assert Tag(price, [e] + q) == [PricedEntry(price, e)] + Tag(price, q);
    }
  }

  lemma FlattenCons(l: Level, ls: seq<Level>)
    ensures Flatten([l] + ls) == Tag(l.price, l.queue) + Flatten(ls)
  {
    assert ([l] + ls)[1..] == ls;
  }

  lemma {:induction false} AddToLevelsContent(side: BookSide, levels: seq<Level>, price: int, e: LobEntry)
    ensures multiset(Flatten(AddToLevels(side, levels, price, e)))
            == multiset(Flatten(levels)) + multiset{PricedEntry(price, e)}
    decreases |levels|
  {
    if |levels| == 0 || (levels[0].price != price && Better(side, price, levels[0].price)) {
      AddNewLevelContent(side, levels, price, e);
    } else if levels[0].price == price {
      AddSameLevelContent(side, levels, price, e);
    } else {
      AddToLevelsContent(side, levels[1..], price, e);
      AddLaterLevelContent(side, levels, price, e);
    }
  }

  lemma AddLaterLevelContent(side: BookSide, levels: seq<Level>, price: int, e: LobEntry)
    requires |levels| > 0 && levels[0].price != price && !Better(side, price, levels[0].price)
    requires multiset(Flatten(AddToLevels(side, levels[1..], price, e)))
             == multiset(Flatten(levels[1..])) + multiset{PricedEntry(price, e)}
    ensures multiset(Flatten(AddToLevels(side, levels, price, e)))
            == multiset(Flatten(levels)) + multiset{PricedEntry(price, e)}
  {
    var rest := AddToLevels(side, levels[1..], price, e);
    assert AddToLevels(side, levels, price, e) == [levels[0]] + rest;
    FlattenCons(levels[0], rest);
    FlattenCons(levels[0], levels[1..]);
    assert levels == [levels[0]] + levels[1..];
  }

  lemma AddNewLevelContent(side: BookSide, levels: seq<Level>, price: int, e: LobEntry)
    requires |levels| == 0 || (levels[0].price != price && Better(side, price, levels[0].price))
    ensures multiset(Flatten(AddToLevels(side, levels, price, e)))
            == multiset(Flatten(levels)) + multiset{PricedEntry(price, e)}
  {
    assert AddToLevels(side, levels, price, e) == [Level(price, [e])] + levels;
    FlattenCons(Level(price, [e]), levels);
    assert Tag(price, [e]) == [PricedEntry(price, e)] + Tag(price, []);
  }

  lemma AddSameLevelContent(side: BookSide, levels: seq<Level>, price: int, e: LobEntry)
    requires |levels| > 0 && levels[0].price == price
    ensures multiset(Flatten(AddToLevels(side, levels, price, e)))
            == multiset(Flatten(levels)) + multiset{PricedEntry(price, e)}
  {
    var q := levels[0].queue;
    assert AddToLevels(side, levels, price, e) == [Level(price, InsertEntry(q, e))] + levels[1..];
    FlattenCons(Level(price, InsertEntry(q, e)), levels[1..]);
    FlattenCons(levels[0], levels[1..]);
    assert levels == [levels[0]] + levels[1..];
    TagInsert(price, q, e);
  }

  lemma {:induction false} AddToLevelsDepth(side: BookSide, levels: seq<Level>, price: int, e: LobEntry, p: int)
    ensures DepthAt(AddToLevels(side, levels, price, e), p)
            == DepthAt(levels, p) + (if p == price then e.qty else 0)
    decreases |levels|
  {
    var r := AddToLevels(side, levels, price, e);
    assert SumQty([e]) == e.qty;
    if |levels| == 0 {
      assert DepthAt(r, p) == (if price == p then SumQty([e]) else 0) + DepthAt(r[1..], p);
    } else if levels[0].price == price {
      assert r[1..] == levels[1..];
    } else if Better(side, price, levels[0].price) {
      assert r[1..] == levels;
    } else {
      AddToLevelsDepth(side, levels[1..], price, e, p);
      assert r[1..] == AddToLevels(side, levels[1..], price, e);
    }
  }

  lemma {:induction false} BestFirstPairwise(side: BookSide, levels: seq<Level>)
    requires BestFirst(side, levels)
    ensures forall i, j :: 0 <= i < j < |levels| ==> Better(side, levels[i].price, levels[j].price)
    decreases |levels|
  {
    if |levels| > 1 {
      BestFirstPairwise(side, levels[1..]);
      assert forall j :: 1 <= j < |levels| ==> levels[j] == levels[1..][j - 1];
    }
  }

  lemma {:induction false} SortedQueuePairwise(q: seq<LobEntry>)
    requires SortedQueue(q)
    ensures forall i, j :: 0 <= i < j < |q| ==> EntryLe(q[i], q[j])
    decreases |q|
  {
    if |q| > 1 {
      SortedQueuePairwise(q[1..]);
      forall j | 1 <= j < |q|
        ensures EntryLe(q[0], q[j])
      {
        assert q[j] == q[1..][j - 1];
        if j > 1 {
          assert q[1] == q[1..][0];
          EntryLeTransitive(q[0], q[1], q[j]);
        }
      }
      assert forall i :: 1 <= i < |q| ==> q[i] == q[1..][i - 1];
    }
  }

  /** A price carried by one level only has the level's total as its depth. */
  lemma {:induction false} DepthAtLevel(side: BookSide, levels: seq<Level>, i: nat)
    requires BestFirst(side, levels)
    requires i < |levels|
    ensures DepthAt(levels, levels[i].price) == SumQty(levels[i].queue)
    decreases |levels|
  {
    BestFirstPairwise(side, levels);
    if i == 0 {
      DepthAtAbsent(levels[1..], levels[0].price);
    } else {
      DepthAtLevel(side, levels[1..], i - 1);
    }
  }

  lemma {:induction false} DepthAtAbsent(levels: seq<Level>, p: int)
    requires forall i :: 0 <= i < |levels| ==> levels[i].price != p
    ensures DepthAt(levels, p) == 0
    decreases |levels|
  {
    if |levels| > 0 {
      DepthAtAbsent(levels[1..], p);
    }
  }

  lemma {:induction false} BuildLobFacts(side: BookSide, orders: seq<Order>)
    ensures WellFormed(side, BuildLob(side, orders))
    ensures multiset(Flatten(BuildLob(side, orders))) == multiset(PricedEntries(orders))
    ensures forall p :: DepthAt(BuildLob(side, orders), p) == PriceDepth(orders, p)
    ensures |BuildLob(side, orders)| == 0 <==> |orders| == 0
    decreases |orders|
  {
    if |orders| > 0 {
      var init := orders[..|orders| - 1];
      var o := orders[|orders| - 1];
      BuildLobFacts(side, init);
      AddToLevelsWellFormed(side, BuildLob(side, init), o.price, EntryOf(o));
      AddToLevelsContent(side, BuildLob(side, init), o.price, EntryOf(o));
      forall p | true
        ensures DepthAt(BuildLob(side, orders), p) == PriceDepth(orders, p)
      {
        AddToLevelsDepth(side, BuildLob(side, init), o.price, EntryOf(o), p);
      }
    }
  }

  /** `build_lob`'s promise: price levels strictly best-first, each level's
      queue non-empty and in arrival-time (then qty, tid, oid) order; the
      entries are exactly those of the live orders; and `lob_anon` has one
      (price, summed quantity) pair per level, in the same order, whose
      quantity is the total of the live orders at that price. */
  lemma BuildLobSpec(side: BookSide, orders: seq<Order>)
    ensures var lob := BuildLob(side, orders);
      && (forall i, j :: 0 <= i < j < |lob| ==> Better(side, lob[i].price, lob[j].price))
      && (forall i :: 0 <= i < |lob| ==> |lob[i].queue| > 0)
      && (forall i, a, b :: 0 <= i < |lob| && 0 <= a < b < |lob[i].queue| ==>
            EntryLe(lob[i].queue[a], lob[i].queue[b]))
      && multiset(Flatten(lob)) == multiset(PricedEntries(orders))
      && (|lob| == 0 <==> |orders| == 0)
    ensures var lob := BuildLob(side, orders);
      var anon := Anon(lob);
      && |anon| == |lob|
      && forall i :: 0 <= i < |anon| ==>
           anon[i].price == lob[i].price && anon[i].qty == PriceDepth(orders, lob[i].price)
  {
    var lob := BuildLob(side, orders);
    BuildLobFacts(side, orders);
    BestFirstPairwise(side, lob);
    forall i | 0 <= i < |lob|
      ensures forall a, b :: 0 <= a < b < |lob[i].queue| ==> EntryLe(lob[i].queue[a], lob[i].queue[b])
      ensures Anon(lob)[i].qty == PriceDepth(orders, lob[i].price)
    {
      SortedQueuePairwise(lob[i].queue);
      DepthAtLevel(side, lob, i);
    }
  }

  /** Entry `a` is matched before entry `b`: its price is strictly better,
      or the price is the same and `a` is no later in the queue order. */
  predicate Precedes(side: BookSide, a: PricedEntry, b: PricedEntry) {
    Better(side, a.price, b.price) || (a.price == b.price && EntryLe(a.entry, b.entry))
  }

  /** Each entry is matched before its successor. */
  predicate InPriorityOrder(side: BookSide, f: seq<PricedEntry>) {
    |f| <= 1 || (Precedes(side, f[0], f[1]) && InPriorityOrder(side, f[1..]))
  }

  lemma {:induction false} TagAt(price: int, q: seq<LobEntry>, i: nat)
    requires i < |q|
    ensures Tag(price, q)[i] == PricedEntry(price, q[i])
    decreases |q|
  {
    if i > 0 {
      TagAt(price, q[1..], i - 1);
    }
  }

  lemma {:induction false} TagOrdered(side: BookSide, price: int, q: seq<LobEntry>)
    requires SortedQueue(q)
    ensures InPriorityOrder(side, Tag(price, q))
    decreases |q|
  {
    if |q| > 1 {
      TagOrdered(side, price, q[1..]);
      TagAt(price, q, 0);
      TagAt(price, q, 1);
    }
  }

  lemma {:induction false} OrderedConcat(side: BookSide, a: seq<PricedEntry>, b: seq<PricedEntry>)
    requires InPriorityOrder(side, a) && InPriorityOrder(side, b)
    requires |a| > 0 && |b| > 0 ==> Precedes(side, a[|a| - 1], b[0])
    ensures InPriorityOrder(side, a + b)
    decreases |a|
  {
    if |a| == 0 {
      assert a + b == b;
    } else {
      assert (a + b)[1..] == a[1..] + b;
      if |a| > 1 {
        OrderedConcat(side, a[1..], b);
      }
    }
  }

  /** Matching order: reading a well-formed book level by level, front to
      back, visits the entries best price first and, at one price, in queue
      order. */
  lemma {:induction false} FlattenOrdered(side: BookSide, levels: seq<Level>)
    requires WellFormed(side, levels)
    ensures InPriorityOrder(side, Flatten(levels))
    decreases |levels|
  {
    if |levels| > 0 {
      var q := levels[0].queue;
      TagOrdered(side, levels[0].price, q);
      assert WellFormed(side, levels[1..]) by {
        assert forall i :: 0 <= i < |levels[1..]| ==> levels[1..][i] == levels[i + 1];
      }
      FlattenOrdered(side, levels[1..]);
      if |levels| > 1 {
        var q1 := levels[1].queue;
        assert levels[1..][0] == levels[1];
        assert Flatten(levels[1..]) == Tag(levels[1].price, q1) + Flatten(levels[2..]) by {
          assert levels[1..][1..] == levels[2..];
        }
        TagAt(levels[1].price, q1, 0);
        TagAt(levels[0].price, q, |q| - 1);
      }
      OrderedConcat(side, Tag(levels[0].price, q), Flatten(levels[1..]));
    }
  }
  /** An entry of the flattened book sits on a level with its price. */
  lemma {:induction false} LevelOf(levels: seq<Level>, x: PricedEntry) returns (l: nat)
    requires x in Flatten(levels)
    ensures l < |levels| && levels[l].price == x.price
  {
    if x in Tag(levels[0].price, levels[0].queue) {
      TagPrice(levels[0].price, levels[0].queue, x);
      l := 0;
    } else {
      var l' := LevelOf(levels[1..], x);
      l := l' + 1;
    }
  }

  lemma {:induction false} TagPrice(price: int, q: seq<LobEntry>, x: PricedEntry)
    requires x in Tag(price, q)
    ensures x.price == price
  {
    if x != PricedEntry(price, q[0]) {
      TagPrice(price, q[1..], x);
    }
  }
}
