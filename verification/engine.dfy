/**
 The engine: a registry of order books keyed by asset.

 A submission looks up the order's asset, creating an empty book if the asset
 has none (Go's explicit check, Python's `defaultdict`), adds the order to
 that book and runs the matching loop there. The lock both versions take
 only serialises submissions, so the engine is modelled as a value that each
 submission maps to a new value, and a run of submissions as a fold.
 */
module MatchingEngine {
  import opened Orders
  import opened OrderHeap
  import opened OrderBook

  datatype Engine = Engine(books: map<string, Book>)

  /** `NewMatchingEngine` / `MatchingEngine.__init__`: no books yet. */
  const NewEngine: Engine := Engine(map[])

  /** What a submission leaves: the engine and the trades it emitted. */
  datatype Submission = Submission(engine: Engine, trades: seq<Trade>)

  /** The asset's book, or the empty book an unknown asset is given. */
  function BookFor(e: Engine, asset: string): Book {
    if asset in e.books then e.books[asset] else EmptyBook
  }

  /** `MatchingEngine.AddOrder`: the order's book is created if the asset has
      none, the order is added to it and matched; the registry gains at most
      that one asset, every other book is left exactly as it was, and the
      asset's book ends uncrossed. The first order for an asset only rests. */
  function AddOrder(e: Engine, o: Order, pick: Picker): (r: Submission)
    ensures r.engine.books.Keys == e.books.Keys + {o.asset}
    ensures forall a :: a in e.books && a != o.asset ==> r.engine.books[a] == e.books[a]
    ensures !Crossed(r.engine.books[o.asset])
    ensures o.asset !in e.books ==> r.trades == [] && Size(r.engine.books[o.asset]) == 1
    ensures |r.trades| <= Size(BookFor(e, o.asset)) + 1 - Size(r.engine.books[o.asset])
  {
    var m := AddToBook(BookFor(e, o.asset), o, pick);
    Submission(Engine(e.books[o.asset := m.book]), m.trades)
  }

  /** Python's `MatchingEngine.add_order`: the order is built from its
      fields and submitted; only the book of `asset` can change. */
  function Submit(e: Engine, userId: string, asset: string, orderType: string, price: int, amount: int,
                  pick: Picker): (r: Submission)
    ensures r.engine.books.Keys == e.books.Keys + {asset}
    ensures forall a :: a in e.books && a != asset ==> r.engine.books[a] == e.books[a]
    ensures !Crossed(r.engine.books[asset])
  {
    AddOrder(e, Order(userId, asset, orderType, price, amount), pick)
  }

  /** A book fit to be registered under `asset`: buys hold "buy" orders and
      sells the rest, every order trades `asset`, and the book is uncrossed. */
  predicate BookValid(asset: string, b: Book) {
    WellSided(b) && AllForAsset(asset, b.buys) && AllForAsset(asset, b.sells) && !Crossed(b)
  }

  predicate Valid(e: Engine) {
    forall a :: a in e.books ==> BookValid(a, e.books[a])
  }

  /** The registry starts valid. */
  lemma NewEngineValid()
    ensures Valid(NewEngine)
  {
  }

  /** The asset's book after a submission is the matched, routed book. */
  lemma AddOrderUnfolds(e: Engine, o: Order, pick: Picker)
    ensures AddOrder(e, o, pick).engine.books[o.asset] == Match(Route(BookFor(e, o.asset), o), pick).book
    ensures AddOrder(e, o, pick).trades == Match(Route(BookFor(e, o.asset), o), pick).trades
  {
  }

  /** Adding an order of `asset` to a valid book of `asset` gives a valid book. */
  lemma RoutedBookStaysValid(asset: string, b: Book, o: Order, pick: Picker)
    requires BookValid(asset, b)
    requires o.asset == asset
    ensures BookValid(asset, Match(Route(b, o), pick).book)
  {
    var routed := Route(b, o);
    assert AllForAsset(asset, routed.buys) && AllForAsset(asset, routed.sells);
    MatchKeepsAsset(routed, pick, asset);
    assert WellSided(AddToBook(b, o, pick).book);
  }

  /** A submission keeps every book valid: each order sits on the side its
      type names, in the book of its own asset, and no book is left crossed. */
  lemma AddOrderPreservesValid(e: Engine, o: Order, pick: Picker)
    requires Valid(e)
    ensures Valid(AddOrder(e, o, pick).engine)
  {
    assert BookValid(o.asset, BookFor(e, o.asset));
    RoutedBookStaysValid(o.asset, BookFor(e, o.asset), o, pick);
    var after := AddOrder(e, o, pick).engine;
    AddOrderUnfolds(e, o, pick);
    forall a | a in after.books ensures BookValid(a, after.books[a]) {
      if a != o.asset {
        assert after.books[a] == e.books[a];
      }
    }
  }

  /** Every amount of every book lies in `[1, hi]`. */
  predicate AmountsBounded(e: Engine, hi: int) {
    forall a :: a in e.books ==> AmountsIn(e.books[a].buys, hi) && AmountsIn(e.books[a].sells, hi)
  }

  /** Submitting an order with an amount in `[1, hi]` keeps every resting
      amount in `[1, hi]` (no resting order is ever empty) and trades only
      quantities in `[1, hi]`. */
  lemma AddOrderKeepsAmountsBounded(e: Engine, o: Order, pick: Picker, hi: int)
    requires AmountsBounded(e, hi)
    requires 1 <= o.amount <= hi
    ensures AmountsBounded(AddOrder(e, o, pick).engine, hi)
    ensures forall k :: 0 <= k < |AddOrder(e, o, pick).trades| ==> 1 <= AddOrder(e, o, pick).trades[k].amount <= hi
  {
    var b := BookFor(e, o.asset);
    var routed := Route(b, o);
    assert AmountsIn(b.buys, hi) && AmountsIn(b.sells, hi);
    assert AmountsIn(routed.buys, hi) && AmountsIn(routed.sells, hi);
    MatchKeepsAmountsInRange(routed, pick, hi);
    var after := AddOrder(e, o, pick).engine;
    AddOrderUnfolds(e, o, pick);
    forall a | a in after.books ensures AmountsIn(after.books[a].buys, hi) && AmountsIn(after.books[a].sells, hi) {
      if a != o.asset {
        assert after.books[a] == e.books[a];
      }
    }
  }

  /** Conservation in the asset's book: the submitted amount joins its side,
      then both sides lose exactly what was traded. */
  lemma AddOrderConservesVolume(e: Engine, o: Order, pick: Picker)
    ensures var before := BookFor(e, o.asset);
      var r := AddOrder(e, o, pick);
      var after := r.engine.books[o.asset];
      && (o.orderType == BuyType ==>
            && Volume(after.buys) == Volume(before.buys) + o.amount - Traded(r.trades)
            && Volume(after.sells) == Volume(before.sells) - Traded(r.trades))
      && (o.orderType != BuyType ==>
            && Volume(after.sells) == Volume(before.sells) + o.amount - Traded(r.trades)
            && Volume(after.buys) == Volume(before.buys) - Traded(r.trades))
  {
    AddToBookConservesVolume(BookFor(e, o.asset), o, pick);
  }

  /** The assets a list of orders trades. */
  function Assets(orders: seq<Order>): set<string> {
    set k | 0 <= k < |orders| :: orders[k].asset
  }

  lemma AssetsSplit(orders: seq<Order>)
    requires |orders| > 0
    ensures Assets(orders) == {orders[0].asset} + Assets(orders[1..])
  {
    forall a | a in Assets(orders) ensures a in {orders[0].asset} + Assets(orders[1..]) {
      var k :| 0 <= k < |orders| && orders[k].asset == a;
      if k > 0 { assert orders[1..][k - 1] == orders[k]; }
    }
    forall a | a in Assets(orders[1..]) ensures a in Assets(orders) {
      var k :| 0 <= k < |orders[1..]| && orders[1..][k].asset == a;
      assert orders[k + 1] == orders[1..][k];
    }
  }

  /** A run of submissions, one after the other, with all their trades.
      Each submission has its own picker: which of several equally priced
      orders a heap puts on top depends on the layout the earlier
      submissions left, not only on the orders it holds. */
  function Run(e: Engine, orders: seq<Order>, picks: seq<Picker>): (r: Submission)
    requires |picks| == |orders|
    ensures r.engine.books.Keys == e.books.Keys + Assets(orders)
    decreases |orders|
  {
    if |orders| == 0 then Submission(e, [])
    else
      var first := AddOrder(e, orders[0], picks[0]);
      var rest := Run(first.engine, orders[1..], picks[1..]);
      AssetsSplit(orders);
      Submission(rest.engine, first.trades + rest.trades)
  }

  /** After any run of submissions, whatever the tie-breaks, every book is
      valid, in particular uncrossed: no resting bid is at or above a resting
      ask of the same asset. */
  lemma {:induction false} RunPreservesValid(e: Engine, orders: seq<Order>, picks: seq<Picker>)
    requires |picks| == |orders|
    requires Valid(e)
    ensures Valid(Run(e, orders, picks).engine)
    decreases |orders|
  {
    if |orders| > 0 {
      AddOrderPreservesValid(e, orders[0], picks[0]);
      RunPreservesValid(AddOrder(e, orders[0], picks[0]).engine, orders[1..], picks[1..]);
    }
  }

  /** From a fresh engine, no book is ever left crossed. */
  lemma NoBookCrossedAfterAnyRun(orders: seq<Order>, picks: seq<Picker>, a: string)
    requires |picks| == |orders|
    requires a in Run(NewEngine, orders, picks).engine.books
    ensures !Crossed(Run(NewEngine, orders, picks).engine.books[a])
    ensures var b := Run(NewEngine, orders, picks).engine.books[a];
      forall i, j :: 0 <= i < |b.buys| && 0 <= j < |b.sells| ==> b.buys[i].price < b.sells[j].price
  {
    RunPreservesValid(NewEngine, orders, picks);
    CrossedIffSomePairCrosses(Run(NewEngine, orders, picks).engine.books[a]);
  }
}
