/** The anonymised view of one side of a book that every engine generation
    publishes: a list of (price, total quantity) pairs, one per price level. */
module Depth {

  datatype PriceQty = PriceQty(price: int, qty: int)

  /** Prices strictly increase along the list. */
  predicate StrictlyAscending(anon: seq<PriceQty>) {
    forall i, j :: 0 <= i < j < |anon| ==> anon[i].price < anon[j].price
  }

  /** Prices strictly decrease along the list. */
  predicate StrictlyDescending(anon: seq<PriceQty>) {
    forall i, j :: 0 <= i < j < |anon| ==> anon[i].price > anon[j].price
  }
}
