/**
 The order book of one asset and the matching loop.

 A book pairs a buy queue and a sell queue. After every push the engine runs
 the matching loop: while both queues are non-empty and the best bid is at
 least the best ask, it matches the two top orders for the smaller of their
 amounts, at the top ask's price, takes that quantity off both, and pops each
 top order whose amount is now zero. `Match` is the loop as a recursive
 function, `MatchOrders` the loop itself.
 */
module OrderBook {
  import opened Orders
  import opened OrderHeap

  /** A match event: who bought from whom, how much, at what price. */
  datatype Trade = Trade(buyer: string, seller: string, amount: int, price: int)

  datatype Book = Book(buys: seq<Order>, sells: seq<Order>)

  /** The book created for an asset's first order. */
  const EmptyBook: Book := Book([], [])

  /** What the matching loop leaves: the book and the trades, in order. */
  datatype Matched = Matched(book: Book, trades: seq<Trade>)

  /** One turn of the loop: the book after it and the trade it emitted. */
  datatype Step = Step(book: Book, trade: Trade)

  /** Number of resting orders. */
  function Size(b: Book): nat {
    |b.buys| + |b.sells|
  }

  /** Total amount of a list of trades. */
  function Traded(ts: seq<Trade>): int
    decreases |ts|
  {
    if |ts| == 0 then 0 else ts[0].amount + Traded(ts[1..])
  }

  /** Total amount user `u` bought in a list of trades. */
  function BoughtBy(ts: seq<Trade>, u: string): int
    decreases |ts|
  {
    if |ts| == 0 then 0 else (if ts[0].buyer == u then ts[0].amount else 0) + BoughtBy(ts[1..], u)
  }

  /** Total amount user `u` sold in a list of trades. */
  function SoldBy(ts: seq<Trade>, u: string): int
    decreases |ts|
  {
    if |ts| == 0 then 0 else (if ts[0].seller == u then ts[0].amount else 0) + SoldBy(ts[1..], u)
  }

  /** The book is crossed: the loop condition holds and a trade is possible. */
  predicate Crossed(b: Book) {
    |b.buys| > 0 && |b.sells| > 0 && BestPrice(Buy, b.buys) >= BestPrice(Sell, b.sells)
  }

  /** A book is crossed exactly when some resting bid is at or above some
      resting ask; so an uncrossed book holds no pair that could still trade. */
  lemma CrossedIffSomePairCrosses(b: Book)
    ensures Crossed(b) <==>
      exists i, j :: 0 <= i < |b.buys| && 0 <= j < |b.sells| && b.buys[i].price >= b.sells[j].price
  {
    if |b.buys| > 0 && |b.sells| > 0 {
      var i := FirstBest(Buy, b.buys);
      var j := FirstBest(Sell, b.sells);
      BestPriceIsExtreme(Buy, b.buys, i);
      BestPriceIsExtreme(Sell, b.sells, j);
      if Crossed(b) {
        assert b.buys[i].price >= b.sells[j].price;
      }
    }
  }

  /** `BuyOrders[0]`: the top of the buy heap, an order at the best bid. */
  function BestBuy(b: Book, pick: Picker): (o: Order)
    requires |b.buys| > 0
    ensures o.price == BestPrice(Buy, b.buys)
    ensures o in b.buys
  {
    BestPriceIsExtreme(Buy, b.buys, Top(Buy, b.buys, pick));
    b.buys[Top(Buy, b.buys, pick)]
  }

  /** `SellOrders[0]`: the top of the sell heap, an order at the best ask. */
  function BestSell(b: Book, pick: Picker): (o: Order)
    requires |b.sells| > 0
    ensures o.price == BestPrice(Sell, b.sells)
    ensures o in b.sells
  {
    BestPriceIsExtreme(Sell, b.sells, Top(Sell, b.sells, pick));
    b.sells[Top(Sell, b.sells, pick)]
  }

  /** Every buy queue entry has type "buy" and no sell queue entry has. */
  predicate WellSided(b: Book) {
    AllOnSide(Buy, b.buys) && AllOnSide(Sell, b.sells)
  }

  /** An order with its remaining amount forgotten: who, what, which type, which price. */
  function Stripped(o: Order): Order {
    o.(amount := 0)
  }

  /** The stripped orders of a queue. */
  function Identities(h: seq<Order>): set<Order> {
    set k | 0 <= k < |h| :: Stripped(h[k])
  }

  /** Every order of `h2` is an order of `h1`, possibly with a different amount. */
  predicate DescendsFrom(h2: seq<Order>, h1: seq<Order>) {
    Identities(h2) <= Identities(h1)
  }

  /** Each order of a descendant queue matches an order of its ancestor on
      everything but the amount. */
  lemma DescendantHasAncestor(h2: seq<Order>, h1: seq<Order>, k2: int)
    requires DescendsFrom(h2, h1)
    requires 0 <= k2 < |h2|
    ensures exists k1 :: 0 <= k1 < |h1| && Stripped(h2[k2]) == Stripped(h1[k1])
  {
    assert Stripped(h2[k2]) in Identities(h2);
  }

  /** A queue descended from another keeps its users, prices and sides. */
  lemma DescendantsKeepOrderData(h2: seq<Order>, h1: seq<Order>)
    requires DescendsFrom(h2, h1)
    ensures Users(h2) <= Users(h1)
    ensures Prices(h2) <= Prices(h1)
    ensures AllOnSide(Buy, h1) ==> AllOnSide(Buy, h2)
    ensures AllOnSide(Sell, h1) ==> AllOnSide(Sell, h2)
  {
    forall k2 | 0 <= k2 < |h2|
      ensures h2[k2].userId in Users(h1) && h2[k2].price in Prices(h1)
      ensures forall s :: AllOnSide(s, h1) ==> SideOf(h2[k2]) == s
    {
      DescendantHasAncestor(h2, h1, k2);
      var k1 :| 0 <= k1 < |h1| && Stripped(h2[k2]) == Stripped(h1[k1]);
      assert h2[k2].userId == h1[k1].userId && h2[k2].price == h1[k1].price;
      assert SideOf(h2[k2]) == SideOf(h1[k1]);
    }
  }

  /** A queue descended from another keeps its asset. */
  lemma DescendantKeepsAsset(h2: seq<Order>, h1: seq<Order>, asset: string)
    requires DescendsFrom(h2, h1)
    requires AllForAsset(asset, h1)
    ensures AllForAsset(asset, h2)
  {
    forall k2 | 0 <= k2 < |h2| ensures h2[k2].asset == asset {
      DescendantHasAncestor(h2, h1, k2);
      var k1 :| 0 <= k1 < |h1| && Stripped(h2[k2]) == Stripped(h1[k1]);
      assert h2[k2].asset == h1[k1].asset;
    }
  }

  /** The top order after taking `q` off it: popped when its amount reaches
      exactly zero, written back otherwise. */
  function TakeFromTop(h: seq<Order>, i: nat, q: int): (r: seq<Order>)
    requires i < |h|
    ensures h[i].amount == q ==> |r| == |h| - 1
    ensures h[i].amount != q ==> |r| == |h| && r[i] == Fill(h[i], q)
  {
    if h[i].amount - q == 0 then RemoveAt(h, i) else h[i := Fill(h[i], q)]
  }

  /** Taking `q` off the top takes `q` off the volume, keeps every other order,
      and brings in no order that was not there. */
  lemma TakeFromTopEffect(h: seq<Order>, i: nat, q: int)
    requires i < |h|
    ensures Volume(TakeFromTop(h, i, q)) == Volume(h) - q
    ensures multiset(h) - multiset{h[i]} <= multiset(TakeFromTop(h, i, q))
    ensures DescendsFrom(TakeFromTop(h, i, q), h)
  {
    var r := TakeFromTop(h, i, q);
    if h[i].amount - q == 0 {
      VolumeRemoveAt(h, i);
      forall k | 0 <= k < |r| ensures Stripped(r[k]) in Identities(h) {
        if k < i { assert r[k] == h[k]; } else { assert r[k] == h[k + 1]; }
      }
    } else {
      VolumeUpdate(h, i, Fill(h[i], q));
      assert Stripped(r[i]) == Stripped(h[i]);
      forall k | 0 <= k < |r| ensures Stripped(r[k]) in Identities(h) {
        if k != i { assert r[k] == h[k]; }
      }
    }
  }

  /** One turn of the matching loop on a crossed book: the two top orders
      trade the smaller of their amounts at the top ask's price, and each top
      order is popped exactly when that quantity was all it had left, so at
      least one order leaves the book. */
  function MatchStep(b: Book, pick: Picker): (r: Step)
    requires Crossed(b)
    ensures
      var bid := b.buys[Top(Buy, b.buys, pick)];
      var ask := b.sells[Top(Sell, b.sells, pick)];
      && r.trade.buyer == bid.userId
      && r.trade.seller == ask.userId
      && r.trade.price == ask.price
      && r.trade.amount == Min(bid.amount, ask.amount)
      && (|r.book.buys| < |b.buys| <==> bid.amount <= ask.amount)
      && (|r.book.sells| < |b.sells| <==> ask.amount <= bid.amount)
    ensures |r.book.buys| <= |b.buys| && |r.book.sells| <= |b.sells|
    ensures Size(b) - 2 <= Size(r.book) < Size(b)
  {
    var i := Top(Buy, b.buys, pick);
    var j := Top(Sell, b.sells, pick);
    var bid := b.buys[i];
    var ask := b.sells[j];
    var q := Min(bid.amount, ask.amount);
    FillByMinLeavesOneEmpty(bid.amount, ask.amount);
    Step(Book(TakeFromTop(b.buys, i, q), TakeFromTop(b.sells, j, q)),
         Trade(bid.userId, ask.userId, q, ask.price))
  }

  /** A step trades at the best ask, a price the best bid meets. */
  lemma StepPrice(b: Book, pick: Picker)
    requires Crossed(b)
    ensures MatchStep(b, pick).trade.price == BestPrice(Sell, b.sells) <= BestPrice(Buy, b.buys)
  {
    BestPriceIsExtreme(Sell, b.sells, Top(Sell, b.sells, pick));
  }

  /** Apart from the two top orders every resting order stays, no order
      appears that was not there, and each queue loses exactly the traded
      amount. */
  lemma StepEffect(b: Book, pick: Picker)
    requires Crossed(b)
    ensures var r := MatchStep(b, pick);
      && multiset(b.buys) - multiset{b.buys[Top(Buy, b.buys, pick)]} <= multiset(r.book.buys)
      && multiset(b.sells) - multiset{b.sells[Top(Sell, b.sells, pick)]} <= multiset(r.book.sells)
      && Volume(r.book.buys) == Volume(b.buys) - r.trade.amount
      && Volume(r.book.sells) == Volume(b.sells) - r.trade.amount
      && DescendsFrom(r.book.buys, b.buys) && DescendsFrom(r.book.sells, b.sells)
  {
    var i := Top(Buy, b.buys, pick);
    var j := Top(Sell, b.sells, pick);
    var q := Min(b.buys[i].amount, b.sells[j].amount);
    TakeFromTopEffect(b.buys, i, q);
    TakeFromTopEffect(b.sells, j, q);
  }

  /** The matching loop, run until the book is no longer crossed. Every
      trade pops at least one order, so there are at most as many trades as
      orders leave the book. */
  function Match(b: Book, pick: Picker): (r: Matched)
    ensures !Crossed(r.book)
    ensures |r.trades| <= Size(b) - Size(r.book)
    decreases Size(b)
  {
    if !Crossed(b) then Matched(b, [])
    else
      var s := MatchStep(b, pick);
      var rest := Match(s.book, pick);
      Matched(rest.book, [s.trade] + rest.trades)
  }

  /** A crossed book always trades; an uncrossed one is left as it is. */
  lemma MatchTradesIffCrossed(b: Book, pick: Picker)
    ensures Crossed(b) <==> |Match(b, pick).trades| >= 1
    ensures !Crossed(b) ==> Match(b, pick) == Matched(b, [])
  {
  }

  /** Conservation: both queues lose exactly the total traded amount. */
  lemma {:induction false} MatchConservesVolume(b: Book, pick: Picker)
    ensures Volume(Match(b, pick).book.buys) == Volume(b.buys) - Traded(Match(b, pick).trades)
    ensures Volume(Match(b, pick).book.sells) == Volume(b.sells) - Traded(Match(b, pick).trades)
    decreases Size(b)
  {
    if Crossed(b) {
      var s := MatchStep(b, pick);
      var rest := Match(s.book, pick);
      StepEffect(b, pick);
      MatchConservesVolume(s.book, pick);
      assert ([s.trade] + rest.trades)[1..] == rest.trades;
    }
  }

  /** Taking `q` off the top order takes `q` off its user's volume and
      leaves every other user's volume as it was. */
  lemma TakeFromTopUserEffect(h: seq<Order>, i: nat, q: int, u: string)
    requires i < |h|
    ensures UserVolume(TakeFromTop(h, i, q), u) == UserVolume(h, u) - (if h[i].userId == u then q else 0)
  {
    if h[i].amount - q == 0 {
      UserVolumeRemoveAt(h, i, u);
    } else {
      UserVolumeUpdate(h, i, Fill(h[i], q), u);
    }
  }

  /** A step takes the traded amount off the buyer's bids and the seller's
      asks, and off nobody else's orders. */
  lemma StepUserEffect(b: Book, pick: Picker, u: string)
    requires Crossed(b)
    ensures var r := MatchStep(b, pick);
      && UserVolume(r.book.buys, u) == UserVolume(b.buys, u) - (if r.trade.buyer == u then r.trade.amount else 0)
      && UserVolume(r.book.sells, u) == UserVolume(b.sells, u) - (if r.trade.seller == u then r.trade.amount else 0)
  {
    var i := Top(Buy, b.buys, pick);
    var j := Top(Sell, b.sells, pick);
    var q := Min(b.buys[i].amount, b.sells[j].amount);
    TakeFromTopUserEffect(b.buys, i, q, u);
    TakeFromTopUserEffect(b.sells, j, q, u);
  }

  /** Conservation per user: the bids of user `u` lose exactly what `u`
      bought, and the asks of `u` lose exactly what `u` sold. Each trade
      decrements the two orders it names and no other. */
  lemma {:induction false} MatchConservesUserVolume(b: Book, pick: Picker, u: string)
    ensures UserVolume(Match(b, pick).book.buys, u) == UserVolume(b.buys, u) - BoughtBy(Match(b, pick).trades, u)
    ensures UserVolume(Match(b, pick).book.sells, u) == UserVolume(b.sells, u) - SoldBy(Match(b, pick).trades, u)
    decreases Size(b)
  {
    if Crossed(b) {
      var s := MatchStep(b, pick);
      var rest := Match(s.book, pick);
      StepUserEffect(b, pick, u);
      MatchConservesUserVolume(s.book, pick, u);
      assert ([s.trade] + rest.trades)[1..] == rest.trades;
    }
  }

  /** Matching creates no orders: whatever rests afterwards was in the book,
      with the same submitter, asset, type and price. */
  lemma {:induction false} MatchKeepsOrders(b: Book, pick: Picker)
    ensures DescendsFrom(Match(b, pick).book.buys, b.buys)
    ensures DescendsFrom(Match(b, pick).book.sells, b.sells)
    decreases Size(b)
  {
    if Crossed(b) {
      StepEffect(b, pick);
      MatchKeepsOrders(MatchStep(b, pick).book, pick);
    }
  }

  /** Taking at most the top order's amount off it keeps every amount of the
      queue in `[1, hi]`: a popped order leaves, a kept one still has some
      amount left. */
  lemma TakeFromTopKeepsAmountsIn(h: seq<Order>, i: nat, q: int, hi: int)
    requires i < |h|
    requires AmountsIn(h, hi)
    requires 1 <= q <= h[i].amount
    ensures AmountsIn(TakeFromTop(h, i, q), hi)
  {
    var r := TakeFromTop(h, i, q);
    forall k | 0 <= k < |r| ensures 1 <= r[k].amount <= hi {
      if h[i].amount == q {
        if k < i { assert r[k] == h[k]; } else { assert r[k] == h[k + 1]; }
      } else if k != i {
        assert r[k] == h[k];
      }
    }
  }

  /** Positive amounts up to `hi` stay positive and up to `hi` through a
      step, and the step trades a quantity in `[1, hi]`. */
  lemma StepKeepsAmountsIn(b: Book, pick: Picker, hi: int)
    requires Crossed(b)
    requires AmountsIn(b.buys, hi) && AmountsIn(b.sells, hi)
    ensures var r := MatchStep(b, pick);
      && AmountsIn(r.book.buys, hi) && AmountsIn(r.book.sells, hi)
      && 1 <= r.trade.amount <= hi
  {
    var i := Top(Buy, b.buys, pick);
    var j := Top(Sell, b.sells, pick);
    var q := Min(b.buys[i].amount, b.sells[j].amount);
    TakeFromTopKeepsAmountsIn(b.buys, i, q, hi);
    TakeFromTopKeepsAmountsIn(b.sells, j, q, hi);
  }

  /** Matching keeps every order of a one-asset book in that asset. */
  lemma MatchKeepsAsset(b: Book, pick: Picker, asset: string)
    requires AllForAsset(asset, b.buys) && AllForAsset(asset, b.sells)
    ensures AllForAsset(asset, Match(b, pick).book.buys) && AllForAsset(asset, Match(b, pick).book.sells)
  {
    MatchKeepsOrders(b, pick);
    DescendantKeepsAsset(Match(b, pick).book.buys, b.buys, asset);
    DescendantKeepsAsset(Match(b, pick).book.sells, b.sells, asset);
  }

  /** The trades of a crossed book: the step's trade, then the rest. */
  lemma MatchTradesSplit(b: Book, pick: Picker, k: int)
    requires Crossed(b)
    requires 0 <= k < |Match(b, pick).trades|
    ensures k == 0 ==> Match(b, pick).trades[k] == MatchStep(b, pick).trade
    ensures k > 0 ==> Match(b, pick).trades[k] == Match(MatchStep(b, pick).book, pick).trades[k - 1]
  {
  }

  /** If every resting amount is in `[1, hi]`, matching keeps it so and
      every trade's quantity is in `[1, hi]`. With `hi` the largest 64-bit
      integer this is why Go's `int` arithmetic in the loop cannot wrap:
      every quantity is positive and the decrements never go below zero. */
  lemma {:induction false} MatchKeepsAmountsInRange(b: Book, pick: Picker, hi: int)
    requires AmountsIn(b.buys, hi) && AmountsIn(b.sells, hi)
    ensures AmountsIn(Match(b, pick).book.buys, hi) && AmountsIn(Match(b, pick).book.sells, hi)
    ensures forall k :: 0 <= k < |Match(b, pick).trades| ==> 1 <= Match(b, pick).trades[k].amount <= hi
    decreases Size(b)
  {
    if Crossed(b) {
      var s := MatchStep(b, pick);
      StepKeepsAmountsIn(b, pick, hi);
      MatchKeepsAmountsInRange(s.book, pick, hi);
      forall k | 0 <= k < |Match(b, pick).trades|
        ensures 1 <= Match(b, pick).trades[k].amount <= hi
      {
        MatchTradesSplit(b, pick, k);
      }
    }
  }

  /** Every trade is between a resting buyer and a resting seller of the
      book, at the price of one of its resting asks. */
  lemma {:induction false} MatchTradesFromBook(b: Book, pick: Picker)
    ensures forall k :: 0 <= k < |Match(b, pick).trades| ==>
      var t := Match(b, pick).trades[k];
      t.buyer in Users(b.buys) && t.seller in Users(b.sells) && t.price in Prices(b.sells)
    decreases Size(b)
  {
    if Crossed(b) {
      var s := MatchStep(b, pick);
      StepEffect(b, pick);
      DescendantsKeepOrderData(s.book.buys, b.buys);
      DescendantsKeepOrderData(s.book.sells, b.sells);
      MatchTradesFromBook(s.book, pick);
      var ts := Match(b, pick).trades;
      forall k | 0 <= k < |ts|
        ensures ts[k].buyer in Users(b.buys) && ts[k].seller in Users(b.sells) && ts[k].price in Prices(b.sells)
      {
        MatchTradesSplit(b, pick, k);
      }
    }
  }

  /** No trade is priced above a bound on every resting bid. */
  lemma {:induction false} MatchPricesAtMost(b: Book, pick: Picker, hi: int)
    requires forall p :: p in Prices(b.buys) ==> p <= hi
    ensures forall k :: 0 <= k < |Match(b, pick).trades| ==> Match(b, pick).trades[k].price <= hi
    decreases Size(b)
  {
    if Crossed(b) {
      var s := MatchStep(b, pick);
      StepPrice(b, pick);
      StepEffect(b, pick);
      DescendantsKeepOrderData(s.book.buys, b.buys);
      assert BestPrice(Buy, b.buys) in Prices(b.buys);
      MatchPricesAtMost(s.book, pick, hi);
      var ts := Match(b, pick).trades;
      forall k | 0 <= k < |ts| ensures ts[k].price <= hi {
        MatchTradesSplit(b, pick, k);
      }
    }
  }

  /** Every trade of a submission is priced within the spread it crossed:
      at or above the best ask and at or below the best bid it started from. */
  lemma TradePricesWithinSpread(b: Book, pick: Picker)
    requires Crossed(b)
    ensures forall k :: 0 <= k < |Match(b, pick).trades| ==>
      BestPrice(Sell, b.sells) <= Match(b, pick).trades[k].price <= BestPrice(Buy, b.buys)
  {
    BestPriceIsExtreme(Buy, b.buys, FirstBest(Buy, b.buys));
    BestPriceIsExtreme(Sell, b.sells, FirstBest(Sell, b.sells));
    MatchPricesAtMost(b, pick, BestPrice(Buy, b.buys));
    MatchTradesFromBook(b, pick);
  }

  lemma AppendRegroups(done: seq<Trade>, t: Trade, later: seq<Trade>)
    ensures done + ([t] + later) == (done + [t]) + later
  {
  }

  /** One turn of the loop as the method takes it: `Match` from the book
      before is the turn's trade followed by `Match` from the book after. */
  method Turn(book: Book, pick: Picker) returns (next: Book, trade: Trade)
    requires Crossed(book)
    ensures Size(next) < Size(book)
    ensures Match(book, pick).book == Match(next, pick).book
    ensures Match(book, pick).trades == [trade] + Match(next, pick).trades
  {
    var s := MatchStep(book, pick);
    next, trade := s.book, s.trade;
  }

  /** `MatchOrders`: the loop as the source writes it, with its `break`. It
      leaves the book uncrossed and computes exactly what `Match` does. */
  method MatchOrders(b: Book, pick: Picker) returns (book: Book, trades: seq<Trade>)
    ensures !Crossed(book)
    ensures Matched(book, trades) == Match(b, pick)
  {
    book := b;
    trades := [];
    while |book.buys| > 0 && |book.sells| > 0
      invariant Match(b, pick).book == Match(book, pick).book
      invariant Match(b, pick).trades == trades + Match(book, pick).trades
      decreases Size(book)
    {
      var bestBuy := BestBuy(book, pick);
      var bestSell := BestSell(book, pick);
      if bestBuy.price >= bestSell.price {
        var next, trade := Turn(book, pick);
        var later := Match(next, pick).trades;
        AppendRegroups(trades, trade, later);
        trades := trades + [trade];
        book := next;
      } else {
        break;
      }
    }
    assert Match(book, pick) == Matched(book, []);
    assert trades + [] == trades;
  }

  /** Route an order to its queue: type "buy" joins the buys, every other
      type joins the sells; exactly one queue grows, by that one order. */
  function Route(b: Book, o: Order): (r: Book)
    ensures o.orderType == BuyType ==> r.sells == b.sells && multiset(r.buys) == multiset(b.buys) + multiset{o}
    ensures o.orderType != BuyType ==> r.buys == b.buys && multiset(r.sells) == multiset(b.sells) + multiset{o}
    ensures Size(r) == Size(b) + 1
    ensures WellSided(b) ==> WellSided(r)
  {
    if o.orderType == BuyType then Book(Push(b.buys, o), b.sells) else Book(b.buys, Push(b.sells, o))
  }

  /** `OrderBook.add_order`: push, then always run the matching loop. The
      book is left uncrossed, keeps its orders on their sides, and loses at
      least one order per trade. */
  function AddToBook(b: Book, o: Order, pick: Picker): (r: Matched)
    ensures !Crossed(r.book)
    ensures WellSided(b) ==> WellSided(r.book)
    ensures |r.trades| <= Size(b) + 1 - Size(r.book)
  {
    var routed := Route(b, o);
    var r := Match(routed, pick);
    MatchKeepsOrders(routed, pick);
    DescendantsKeepOrderData(r.book.buys, routed.buys);
    DescendantsKeepOrderData(r.book.sells, routed.sells);
    r
  }

  /** Conservation across a submission: the pushed order's amount joins its
      side, and both sides then lose exactly the traded amount. */
  lemma AddToBookConservesVolume(b: Book, o: Order, pick: Picker)
    ensures var r := AddToBook(b, o, pick);
      && (SideOf(o) == Buy ==>
            && Volume(r.book.buys) == Volume(b.buys) + o.amount - Traded(r.trades)
            && Volume(r.book.sells) == Volume(b.sells) - Traded(r.trades))
      && (SideOf(o) == Sell ==>
            && Volume(r.book.sells) == Volume(b.sells) + o.amount - Traded(r.trades)
            && Volume(r.book.buys) == Volume(b.buys) - Traded(r.trades))
  {
    VolumePush(b.buys, o);
    VolumePush(b.sells, o);
    MatchConservesVolume(Route(b, o), pick);
  }
}
