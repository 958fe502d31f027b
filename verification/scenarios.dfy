/**
 Concrete submissions, worked through the model for every tie-break choice.
 */
module Scenarios {
  import opened Orders
  import opened OrderHeap
  import opened OrderBook
  import opened MatchingEngine

  /** A queue of one order has that order on top, whatever the picker says. */
  lemma LoneOrderIsTop(s: Side, o: Order, pick: Picker)
    ensures Top(s, [o], pick) == 0
    ensures BestPrice(s, [o]) == o.price
  {
  }

  /** The first order for an asset rests alone in a new book. */
  lemma FirstOrderRests(o: Order, pick: Picker)
    ensures AddOrder(NewEngine, o, pick).trades == []
    ensures AddOrder(NewEngine, o, pick).engine.books[o.asset] == Route(EmptyBook, o)
  {
    AddOrderUnfolds(NewEngine, o, pick);
  }

  /** One bid against one ask that it meets: they trade the smaller amount at
      the ask's price, and whichever had only that much left is gone. */
  lemma OneAgainstOne(bid: Order, ask: Order, pick: Picker)
    requires bid.price >= ask.price
    ensures var q := Min(bid.amount, ask.amount);
      MatchStep(Book([bid], [ask]), pick) ==
        Step(Book(if bid.amount == q then [] else [Fill(bid, q)], if ask.amount == q then [] else [Fill(ask, q)]),
             Trade(bid.userId, ask.userId, q, ask.price))
  {
    LoneOrderIsTop(Buy, bid, pick);
    LoneOrderIsTop(Sell, ask, pick);
    var q := Min(bid.amount, ask.amount);
    assert TakeFromTop([bid], 0, q) == (if bid.amount == q then [] else [Fill(bid, q)]);
    assert TakeFromTop([ask], 0, q) == (if ask.amount == q then [] else [Fill(ask, q)]);
  }

  /** A crossed book whose first step leaves it uncrossed matches in exactly that one step. */
  lemma MatchAfterOneStep(b: Book, pick: Picker)
    requires Crossed(b)
    requires !Crossed(MatchStep(b, pick).book)
    ensures Match(b, pick) == Matched(MatchStep(b, pick).book, [MatchStep(b, pick).trade])
  {
  }

  /** An exact match: a resting ask of 10 at 90 and an incoming bid of 10 at
      100 trade 10 at the ask's price 90, and the book is left empty. */
  lemma ExactMatch(pick: Picker)
    ensures var ask := Order("seller", "BTC", "sell", 90, 10);
      var bid := Order("buyer", "BTC", "buy", 100, 10);
      var first := AddOrder(NewEngine, ask, pick);
      var second := AddOrder(first.engine, bid, pick);
      && first.trades == []
      && second.trades == [Trade("buyer", "seller", 10, 90)]
      && second.engine.books["BTC"] == EmptyBook
  {
    var ask := Order("seller", "BTC", "sell", 90, 10);
    var bid := Order("buyer", "BTC", "buy", 100, 10);
    var first := AddOrder(NewEngine, ask, pick);
    FirstOrderRests(ask, pick);
    AddOrderUnfolds(first.engine, bid, pick);
    var crossed := Book([bid], [ask]);
    assert Route(BookFor(first.engine, "BTC"), bid) == crossed;
    LoneOrderIsTop(Buy, bid, pick);
    LoneOrderIsTop(Sell, ask, pick);
    OneAgainstOne(bid, ask, pick);
    MatchAfterOneStep(crossed, pick);
  }

  /** A partial fill: a resting bid of 5 at 100 meets an ask of 10 at 100;
      5 trade at 100, the bid is gone and the ask rests with 5 left. */
  lemma PartialFill(pick: Picker)
    ensures var bid := Order("buyer", "BTC", "buy", 100, 5);
      var ask := Order("seller", "BTC", "sell", 100, 10);
      var first := AddOrder(NewEngine, bid, pick);
      var second := AddOrder(first.engine, ask, pick);
      && second.trades == [Trade("buyer", "seller", 5, 100)]
      && second.engine.books["BTC"] == Book([], [ask.(amount := 5)])
  {
    var bid := Order("buyer", "BTC", "buy", 100, 5);
    var ask := Order("seller", "BTC", "sell", 100, 10);
    var first := AddOrder(NewEngine, bid, pick);
    FirstOrderRests(bid, pick);
    AddOrderUnfolds(first.engine, ask, pick);
    var crossed := Book([bid], [ask]);
    assert Route(BookFor(first.engine, "BTC"), ask) == crossed;
    LoneOrderIsTop(Buy, bid, pick);
    LoneOrderIsTop(Sell, ask, pick);
    OneAgainstOne(bid, ask, pick);
    MatchAfterOneStep(crossed, pick);
  }

  /** No cross: a bid of 100 under an ask of 110 trades nothing and both
      orders rest. */
  lemma NoCross(pick: Picker)
    ensures var ask := Order("seller", "BTC", "sell", 110, 10);
      var bid := Order("buyer", "BTC", "buy", 100, 10);
      var first := AddOrder(NewEngine, ask, pick);
      var second := AddOrder(first.engine, bid, pick);
      && second.trades == []
      && second.engine.books["BTC"] == Book([bid], [ask])
  {
    var ask := Order("seller", "BTC", "sell", 110, 10);
    var bid := Order("buyer", "BTC", "buy", 100, 10);
    var first := AddOrder(NewEngine, ask, pick);
    FirstOrderRests(ask, pick);
    AddOrderUnfolds(first.engine, bid, pick);
    assert Route(BookFor(first.engine, "BTC"), bid) == Book([bid], [ask]);
    LoneOrderIsTop(Buy, bid, pick);
    LoneOrderIsTop(Sell, ask, pick);
  }

  /** The first step of the sweep takes whichever ask the heap puts on top,
      in full, and leaves the bid with the rest against the other ask. */
  lemma SweepFirstStep(bid: Order, asks: seq<Order>, pick: Picker)
    requires |asks| == 2 && asks[0].price == asks[1].price <= bid.price
    requires asks[0].amount < bid.amount && asks[1].amount < bid.amount
    ensures Crossed(Book([bid], asks))
    ensures var j := Top(Sell, asks, pick);
      MatchStep(Book([bid], asks), pick)
        == Step(Book([Fill(bid, asks[j].amount)], [asks[1 - j]]),
                Trade(bid.userId, asks[j].userId, asks[j].amount, asks[0].price))
  {
    LoneOrderIsTop(Buy, bid, pick);
    assert FirstBest(Sell, asks) == 0;
    var j := Top(Sell, asks, pick);
    assert RemoveAt(asks, j) == [asks[1 - j]];
  }

  /** A crossed book matches as its first step followed by matching the rest. */
  lemma MatchUnfoldsOnce(b: Book, pick: Picker)
    requires Crossed(b)
    ensures var s := MatchStep(b, pick);
      Match(b, pick) == Matched(Match(s.book, pick).book, [s.trade] + Match(s.book, pick).trades)
  {
  }

  /** A bid and an ask of equal amounts that meet trade once and empty the book. */
  lemma EqualPairClears(bid: Order, ask: Order, pick: Picker)
    requires bid.price >= ask.price
    requires bid.amount == ask.amount
    ensures Match(Book([bid], [ask]), pick) == Matched(EmptyBook, [Trade(bid.userId, ask.userId, ask.amount, ask.price)])
  {
    LoneOrderIsTop(Buy, bid, pick);
    LoneOrderIsTop(Sell, ask, pick);
    OneAgainstOne(bid, ask, pick);
    MatchAfterOneStep(Book([bid], [ask]), pick);
  }

  /** A crossed book whose first step leaves an equal bid and ask that meet
      trades twice and ends empty. */
  lemma ClearsInTwoSteps(b: Book, left: Order, other: Order, first: Trade, pick: Picker)
    requires Crossed(b)
    requires MatchStep(b, pick) == Step(Book([left], [other]), first)
    requires left.price >= other.price && left.amount == other.amount
    ensures Match(b, pick) == Matched(EmptyBook, [first, Trade(left.userId, other.userId, other.amount, other.price)])
  {
    EqualPairClears(left, other, pick);
    MatchUnfoldsOnce(b, pick);
  }

  /** A bid that exactly covers two equally priced asks it meets: it first
      takes in full whichever ask the heap puts on top, then the other, both
      at the asks' price, and the book is left empty. */
  lemma SweepTwoAsks(bid: Order, asks: seq<Order>, pick: Picker)
    requires |asks| == 2 && asks[0].price == asks[1].price <= bid.price
    requires asks[0].amount > 0 && asks[1].amount > 0 && asks[0].amount + asks[1].amount == bid.amount
    ensures var j := Top(Sell, asks, pick);
      Match(Book([bid], asks), pick)
        == Matched(EmptyBook, [Trade(bid.userId, asks[j].userId, asks[j].amount, asks[0].price),
                               Trade(bid.userId, asks[1 - j].userId, asks[1 - j].amount, asks[0].price)])
  {
    SweepFirstStep(bid, asks, pick);
    var j := Top(Sell, asks, pick);
    var left := Fill(bid, asks[j].amount);
    assert left.amount == asks[1 - j].amount;
    ClearsInTwoSteps(Book([bid], asks), left, asks[1 - j],
                     Trade(bid.userId, asks[j].userId, asks[j].amount, asks[0].price), pick);
  }

  /** Asks of 4 and 6 at 100 swept by a bid of 10 at 100: two trades at 100,
      of 4 and of 6 in either order, and an empty book. */
  lemma SweepFourAndSix(pick: Picker)
    ensures var r := Match(Book([Order("buyer", "BTC", "buy", 100, 10)],
                                [Order("s1", "BTC", "sell", 100, 4), Order("s2", "BTC", "sell", 100, 6)]), pick);
      && |r.trades| == 2
      && r.trades[0].price == 100 && r.trades[1].price == 100
      && multiset{r.trades[0].amount, r.trades[1].amount} == multiset{4, 6}
      && r.book == EmptyBook
  {
    SweepTwoAsks(Order("buyer", "BTC", "buy", 100, 10),
                 [Order("s1", "BTC", "sell", 100, 4), Order("s2", "BTC", "sell", 100, 6)], pick);
  }
}
