# Continuous double-auction matching engine, modelled in Dafny

This project models the matching engine of `main_socketio.go` (Go) and
`main_socketio_heap.py` (Python). Both files implement the same engine:

- a registry maps each asset to an order book;
- a book holds a buy heap, where the highest bid ranks first, and a sell heap,
  where the lowest ask ranks first;
- a submission finds or creates the asset's book, pushes the order onto the
  buy heap when its type is the string `"buy"` and onto the sell heap
  otherwise, and then runs the matching loop;
- while both heaps are non-empty and the top bid is at least the top ask, the
  loop trades the smaller of the two top amounts at the top ask's price,
  subtracts that quantity from both top orders, and pops each top order whose
  amount reached zero.

One model serves both versions. They agree on every step except one: which
of several equally priced orders comes to the top of a heap after a pop.
Go's `heap.Pop` and Python's `heappop` rearrange the heap differently, so
the same submissions can trade with equally priced orders in a different
order. The model abstracts that choice (see below). The modules follow the
program's structure:

- `Orders` (`orders.dfy`): the order record, the two sides, the source's
  comparator `LessThan` and the price ranking `Ahead` it induces, `Min`.
- `OrderHeap` (`order_heap.dfy`): one side of a book as a sequence with a
  "best position" selector. Push, removal, volume, and the link between the
  comparator and the best position.
- `OrderBook` (`order_book.dfy`): the book and one matching step
  (`MatchStep`). The loop appears twice: as a terminating recursive function
  (`Match`) and as the source's `while` loop with its `break`
  (`MatchOrders`), which is proved to compute exactly `Match`. It also holds
  routing (`Route`) and the Python book's `add_order` (`AddToBook`).
- `MatchingEngine` (`engine.dfy`): the registry as a `map<string, Book>`,
  Go's `AddOrder`, Python's `add_order` (`Submit`), and runs of submissions.
- `Scenarios` (`scenarios.dfy`): worked submissions (exact match, partial
  fill, no cross, a sweep of two asks), proved for every tie-break.

A heap's element 0 is some order that no other order ranks ahead of. Which
of several equally priced orders sits there depends on the heap's internal
layout, and that layout depends on the history of pushes and pops. The model
therefore gives each submission a `Picker` that proposes the top position
for a side's queue. A proposal is honoured when it is a best position;
otherwise the first best position is used. Within one submission's matching
loop a side's queue only returns to an earlier state if nothing was popped
from it in between, so its heap layout, and its top, is also unchanged; one
picker per submission therefore covers every tie-break the heaps can make.
A run of submissions takes one picker per submission. Every property is
proved for every picker, so none depends on a tie-break order.

Neither version validates orders, and the model keeps that behaviour:

- any order type other than `"buy"` is treated as a sell;
- nothing rejects a zero or negative price or amount;
- equal prices are not matched first-in first-out.

## Model

| member | source | states |
|---|---|---|
| Orders.LtRanksBySide | main_socketio_heap.py:18-22 | `__lt__` means "ahead in the receiver's side": a higher price for a "buy" order, a lower price for any other type; two orders of one side tie exactly when their prices are equal |
| Orders.AheadIsStrictWeakOrder | main_socketio.go:29-34 | the price ranking of one side is irreflexive, asymmetric and transitive, and ties are transitive, which a heap's ordering needs |
| Orders.LessThan | main_socketio.go:29-34 | Go's `Less` and Python's `__lt__`, as written: the receiver's type picks the direction; `Orders.LtRanksBySide` links it to the side ranking `Ahead` |
| Orders.SideOf | main_socketio.go:65-69 | the `"buy"` test that routes an order; `OrderBook.Route` states which queue grows for each outcome |
| Orders.Fill | main_socketio.go:92-93 | the in-place `-=` on a top order: only its amount changes, by exactly the quantity; `OrderBook.TakeFromTop` and `Orders.FillByMinLeavesOneEmpty` state what it leaves |
| OrderHeap.HeapMinimumIsBest | main_socketio.go:29-34 | in a heap of one side's orders, a position no order is `Less` than is exactly a best position: element 0 holds the max bid on the buy heap and the min ask on the sell heap |
| OrderHeap.FirstBest | main_socketio.go:29-34 | a non-empty queue always has a best position: no order ranks ahead of it |
| OrderHeap.Top | main_socketio.go:75-76 | the order the loop reads at index 0 is at a best position, whatever the tie-break |
| OrderHeap.AnyBestCanBeTop | main_socketio.go:29-34 | conversely, any best position can be the top for some heap layout |
| OrderHeap.BestPriceIsExtreme | main_socketio.go:29-34 | every best position carries the same price, and no bid is above the top bid and no ask below the top ask |
| OrderHeap.ExtremePriceIsBest | main_socketio.go:29-34 | an order at the extreme price is a best one |
| OrderHeap.Push | main_socketio.go:36 | pushing adds exactly the one order and keeps all others |
| OrderHeap.RemoveAt | main_socketio.go:96-99 | popping removes exactly the top order and keeps all others |
| OrderHeap.VolumeRemoveAt | main_socketio_heap.py:56-59 | popping an order takes its amount off the side's total |
| Orders.Min | main_socketio.go:107-112 | `min` is at most each argument and equals one of them |
| Orders.FillByMinLeavesOneEmpty | main_socketio.go:92-100 | after subtracting `min` of the two amounts, neither goes below zero, at least one is zero, and each is zero exactly when it was the smaller |
| OrderBook.Crossed | main_socketio.go:74-78 | the loop condition: both queues non-empty and the best bid at least the best ask; `OrderBook.CrossedIffSomePairCrosses` characterises it over all resting pairs |
| OrderBook.CrossedIffSomePairCrosses | main_socketio.go:74-78 | the loop condition holds exactly when some resting bid is at or above some resting ask |
| OrderBook.BestBuy | main_socketio.go:75 | the top of the buy heap is a resting order at the best bid |
| OrderBook.BestSell | main_socketio.go:76 | the top of the sell heap is a resting order at the best ask |
| OrderBook.TakeFromTop | main_socketio.go:92-100 | a top order is popped exactly when the matched quantity was all it had, and otherwise kept with that quantity subtracted |
| OrderBook.TakeFromTopEffect | main_socketio.go:92-100 | a decrement takes exactly the quantity off the side's volume, keeps every other order, and brings in no new order |
| OrderBook.MatchStep | main_socketio.go:78-100 | one turn: the trade's buyer and seller are the top orders' users, its price is the top ask's, its amount is `min` of the top amounts; each side shrinks exactly when its top amount was the smaller; at least one and at most two orders leave |
| OrderBook.StepPrice | main_socketio.go:83-90 | a turn trades at the best ask, which the best bid meets |
| OrderBook.StepEffect | main_socketio.go:92-100 | both sides lose exactly the traded amount in a turn; all non-top orders stay |
| OrderBook.Match | main_socketio_heap.py:36-61 | the loop terminates and leaves the book uncrossed; it makes at most as many trades as orders leave the book |
| OrderBook.MatchTradesIffCrossed | main_socketio_heap.py:37-41 | the loop trades if and only if the book was crossed, and an uncrossed book is left unchanged |
| OrderBook.MatchConservesVolume | main_socketio.go:92-93 | buy volume and sell volume each fall by exactly the total traded amount |
| OrderHeap.UserVolumeRemoveAt | main_socketio.go:95-100 | popping an order takes its amount off its own user's volume and off no other user's |
| OrderHeap.UserVolumeUpdate | main_socketio.go:92-93 | decrementing an order in place changes only its own user's volume, by the change in its amount |
| OrderBook.TakeFromTopUserEffect | main_socketio.go:92-100 | taking a quantity off the top order takes it off that order's user's volume and leaves every other user's volume unchanged |
| OrderBook.StepUserEffect | main_socketio.go:83-100 | a turn takes the traded amount off the named buyer's bids and the named seller's asks, and off nobody else's orders |
| OrderBook.MatchConservesUserVolume | main_socketio.go:92-93 | for every user, their bids lose exactly what they bought and their asks lose exactly what they sold, over the whole loop |
| OrderBook.MatchKeepsOrders | main_socketio_heap.py:52-59 | every order resting afterwards was resting before, with the same user, asset, type and price |
| OrderBook.StepKeepsAmountsIn | main_socketio_heap.py:43-59 | with amounts in `[1, hi]`, a turn trades a quantity in `[1, hi]` and keeps every amount in `[1, hi]` |
| OrderBook.MatchKeepsAmountsInRange | main_socketio.go:79-99 | with amounts in `[1, hi]`, every trade and every remaining amount stays in `[1, hi]`, so Go's 64-bit `int` cannot wrap |
| OrderBook.MatchTradesFromBook | main_socketio.go:83-90 | every trade's buyer rests on the buy side, its seller on the sell side, and its price is a resting ask's price |
| OrderBook.TradePricesWithinSpread | main_socketio.go:78-88 | every trade's price lies between the starting best ask and the starting best bid |
| OrderBook.Turn | main_socketio.go:75-100 | one iteration shrinks the book and leaves what remains for the loop to produce |
| OrderBook.MatchOrders | main_socketio.go:73-105 | the loop with its `break` exits with the book uncrossed and produces exactly the trades and book of `Match` |
| OrderBook.Route | main_socketio.go:65-69 | a "buy" order joins the buys and any other joins the sells; exactly one side grows by that one order, and the other is unchanged |
| OrderBook.AddToBook | main_socketio_heap.py:29-34 | push then always match: the book ends uncrossed, orders stay on their type's side, and each trade removes at least one order |
| OrderBook.AddToBookConservesVolume | main_socketio_heap.py:29-34 | the pushed amount joins its side, and then both sides lose exactly the traded amount |
| MatchingEngine.AddOrder | main_socketio.go:56-71 | the registry gains at most the order's asset; every other book is unchanged; the asset's book ends uncrossed; a new asset's first order only rests |
| MatchingEngine.BookFor | main_socketio.go:60-64 | find-or-create: the asset's book, or a fresh empty book when the asset has none (Go's explicit check, Python's `defaultdict`); `MatchingEngine.AddOrder` states that the registry gains exactly that key |
| MatchingEngine.Submit | main_socketio_heap.py:68-71 | building the order from its fields and submitting it changes only the book of that asset, which ends uncrossed |
| MatchingEngine.NewEngineValid | main_socketio.go:50-54 | a new engine's registry satisfies the book invariant |
| MatchingEngine.RoutedBookStaysValid | main_socketio_heap.py:29-34 | adding an order of the book's asset keeps sides, asset and non-crossing |
| MatchingEngine.AddOrderPreservesValid | main_socketio.go:56-71 | every book keeps its invariant after a submission: orders on their type's side, of the book's asset, and the book uncrossed |
| MatchingEngine.AddOrderKeepsAmountsBounded | main_socketio.go:56-71 | a submitted amount in `[1, hi]` keeps every resting amount in `[1, hi]` and trades only quantities in `[1, hi]` |
| MatchingEngine.AddOrderConservesVolume | main_socketio.go:64-70 | in the asset's book, the order's side gains its amount and both sides then lose the traded total |
| MatchingEngine.Run | main_socketio.go:60-62 | after a run of submissions, each with its own tie-break, the registry holds exactly the earlier assets plus those submitted |
| MatchingEngine.RunPreservesValid | main_socketio.go:56-71 | the book invariant holds after any run of submissions, whatever tie-break each submission's heaps make |
| MatchingEngine.NoBookCrossedAfterAnyRun | main_socketio.go:74-104 | from a new engine, after any run with any tie-breaks, every resting bid of every book is below every resting ask |
| Scenarios.FirstOrderRests | main_socketio.go:60-70 | an asset's first order trades nothing and rests alone in a new book |
| Scenarios.OneAgainstOne | main_socketio.go:78-100 | a single bid against a single ask it meets trades the smaller amount at the ask's price; whichever had only that amount is gone |
| Scenarios.ExactMatch | main_socketio.go:78-100 | an ask of 10 at 90 followed by a bid of 10 at 100 gives one trade of 10 at 90 and an empty book |
| Scenarios.PartialFill | main_socketio_heap.py:41-59 | a bid of 5 at 100 followed by an ask of 10 at 100 gives one trade of 5 at 100, and the ask rests with 5 |
| Scenarios.NoCross | main_socketio.go:78-103 | a bid of 100 under an ask of 110 trades nothing and both rest |
| Scenarios.SweepFirstStep | main_socketio.go:78-100 | a bid larger than each of two equally priced asks first fills whichever ask is on top, in full |
| Scenarios.SweepTwoAsks | main_socketio.go:74-100 | a bid exactly covering two equally priced asks fills the top one, then the other, at the asks' price, and empties the book |
| Scenarios.SweepFourAndSix | main_socketio.go:74-100 | asks of 4 and 6 at 100 swept by a bid of 10 at 100 give two trades at 100 of 4 and 6, in either order, and an empty book |

## Left out

- Socket.io and HTTP server setup, connect and disconnect handlers, and static file serving are I/O plumbing.
- Decoding JSON into orders is done by a library; the model receives order values.
- `s.Emit`, `emit(..., broadcast=True)`, `fmt.Printf` and `print` are not modelled. The trades are returned as a sequence instead, so whether they go to the sender or to everyone is not modelled either.
- The `"status": "success"` field of each emitted trade and the `order_received` acknowledgement both versions send are constant wire fields and carry no engine state.
- The `sync.Mutex` and `threading.Lock` only serialise submissions, so submissions are modelled one after another.
- Prices are `float64` in Go and untyped in Python. They are modelled as `int`, because the engine only compares them; NaN and infinities are not modelled.
- Amounts are `int` in Go, so decoding rejects non-integers there. Python takes `data['amount']` unchecked, so float amounts are accepted. Float rounding then has two effects. A residue, such as the `2.78e-17` an ask of 0.2 keeps after a bid of 0.3 has first filled an ask of 0.1, rests as a tiny order and later trades as a tiny quantity before it pops. A subtraction can also round the traded quantity away (`5.0 - 2.78e-17 == 5.0`), so a trade is emitted while the other order does not shrink, and volume is not exactly conserved. Amounts are modelled as integers, so none of this is modelled.
- The sift-up and sift-down algorithms of `container/heap` and `heapq` are abstracted. A side is a sequence whose top is a best position, and a pop removes exactly the top.
- Go's `OrderHeap.Len`, `Swap` and `Pop` methods (`main_socketio.go:28`, `:35`, `:37-43`; `Pop` drops the last element) serve only `container/heap`'s algorithms above and are covered by that abstraction; the top removal they implement is `OrderHeap.RemoveAt`.
- Orders are shared by reference in both versions, and the loop mutates the top order in place. The model replaces the top order in the sequence instead.
- OrderHeap.Top: does not say which of several equally priced orders is on top. The heaps are not stable, so no first-in first-out order is claimed.
- Validation of side, price and amount is not modelled, because neither version has any: zero and negative amounts flow through the same code paths as positive ones.
- MatchingEngine.AddOrderKeepsAmountsBounded: states 64-bit safety only for submitted amounts in `[1, hi]`. Go's wrap-around on a non-positive or overflowing input amount is not modelled, because amounts are unbounded integers.
- `test.js` is a demonstration client with no engine logic.
