/**
 Orders, sides and the order comparator of the matching engine.

 An order carries the submitter, the asset it trades, a free-form order type
 string, a limit price and a remaining amount. The engine never validates the
 order type: the string "buy" selects the buy side and every other string the
 sell side. Prices are modelled as integers because the engine only compares
 them; amounts are unbounded integers (see `OrderBook.MatchKeepsAmountsInRange`
 for why Go's 64-bit `int` never wraps on positive amounts).
 */
module Orders {

  datatype Order = Order(userId: string, asset: string, orderType: string, price: int, amount: int)

  /** The two queues of a book. */
  datatype Side = Buy | Sell

  /** The one order type string the engine recognises. */
  const BuyType: string := "buy"

  /** The side an order is routed to: "buy" is a buy, anything else is a sell. */
  function SideOf(o: Order): Side {
    if o.orderType == BuyType then Buy else Sell
  }

  /** `a` ranks strictly ahead of `b` in the queue of side `s`:
      a higher bid on the buy side, a lower ask on the sell side. */
  predicate Ahead(s: Side, a: Order, b: Order) {
    match s
    case Buy => a.price > b.price
    case Sell => a.price < b.price
  }

  /** The comparator both versions give their heaps: the receiver's own order
      type chooses the direction, a higher price first for "buy" and a lower
      price first for anything else. */
  predicate LessThan(a: Order, b: Order) {
    if a.orderType == BuyType then a.price > b.price else a.price < b.price
  }

  /** `Order.__lt__` ranks by the receiver's side: "less" means "ahead in
      that side's queue", and two orders of one side are tied exactly when
      their prices are equal. */
  lemma LtRanksBySide(a: Order, b: Order)
    ensures LessThan(a, b) <==> Ahead(SideOf(a), a, b)
    ensures SideOf(a) == SideOf(b) ==>
      (!LessThan(a, b) && !LessThan(b, a) <==> a.price == b.price)
    ensures SideOf(a) == Buy ==> (LessThan(a, b) <==> a.price > b.price)
    ensures SideOf(a) == Sell ==> (LessThan(a, b) <==> a.price < b.price)
  {
  }

  /** Within one side, `Ahead` is a strict weak order: irreflexive,
      transitive, and ties (neither ahead) are transitive too. */
  lemma AheadIsStrictWeakOrder(s: Side, a: Order, b: Order, c: Order)
    ensures !Ahead(s, a, a)
    ensures Ahead(s, a, b) ==> !Ahead(s, b, a)
    ensures Ahead(s, a, b) && Ahead(s, b, c) ==> Ahead(s, a, c)
    ensures !Ahead(s, a, b) && !Ahead(s, b, c) ==> !Ahead(s, a, c)
  {
  }

  /** Go's `min`: the smaller of two amounts. */
  function Min(a: int, b: int): (r: int)
    ensures r <= a && r <= b
    ensures r == a || r == b
  {
    if a < b then a else b
  }

  /** The order with `q` taken off its remaining amount; everything else kept. */
  function Fill(o: Order, q: int): (r: Order)
    ensures r.amount == o.amount - q
    ensures r.userId == o.userId && r.asset == o.asset && r.orderType == o.orderType && r.price == o.price
  {
    o.(amount := o.amount - q)
  }

  /** Taking the smaller of two amounts off each leaves both at or above
      zero and exactly one of them, or both, at zero. */
  lemma FillByMinLeavesOneEmpty(a: int, b: int)
    ensures a - Min(a, b) >= 0 && b - Min(a, b) >= 0
    ensures a - Min(a, b) == 0 || b - Min(a, b) == 0
    ensures a - Min(a, b) == 0 <==> a <= b
    ensures b - Min(a, b) == 0 <==> b <= a
  {
  }
}
