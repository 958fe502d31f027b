/**
 One side of an order book, modelled abstractly.

 Both versions keep a binary heap (Go's `container/heap`, Python's `heapq`)
 whose element 0 is an order that no other order ranks ahead of. The model
 keeps the orders as a sequence and says which positions are "best". Which
 of several equally priced orders the heap puts on top depends on its
 internal layout, so the model leaves that choice to a `Picker`: whatever
 best position the picker proposes is taken, and any other proposal falls
 back to the first best position. Every property below holds for every
 picker.
 */
module OrderHeap {
  import opened Orders

  /** Proposes a position for the top of a side's queue. */
  type Picker = (Side, seq<Order>) -> nat

  /** Position `i` holds an order that no order of `h` ranks ahead of. */
  predicate IsBest(s: Side, h: seq<Order>, i: int) {
    0 <= i < |h| && forall j :: 0 <= j < |h| ==> !Ahead(s, h[j], h[i])
  }

  /** The first best position. */
  function FirstBest(s: Side, h: seq<Order>): (i: nat)
    requires |h| > 0
    ensures IsBest(s, h, i)
    decreases |h|
  {
    if |h| == 1 then 0
    else
      var k := 1 + FirstBest(s, h[1..]);
      assert h[k] == h[1..][k - 1];
      if Ahead(s, h[k], h[0]) then k else 0
  }

  /** The top of the queue as the heap presents it: a best position, the
      picker deciding among ties. */
  function Top(s: Side, h: seq<Order>, pick: Picker): (i: nat)
    requires |h| > 0
    ensures IsBest(s, h, i)
  {
    var p := pick(s, h);
    if p < |h| && IsBest(s, h, p) then p else FirstBest(s, h)
  }

  /** Every best position can be the top: the picker that proposes it
      makes it so. */
  lemma AnyBestCanBeTop(s: Side, h: seq<Order>, i: nat)
    requires IsBest(s, h, i)
    ensures Top(s, h, (s': Side, h': seq<Order>) => i) == i
  {
  }

  /** The price of the best order, the same whichever best position is taken. */
  function BestPrice(s: Side, h: seq<Order>): int
    requires |h| > 0
  {
    h[FirstBest(s, h)].price
  }

  /** All best positions carry the best price, and the best price bounds every
      price of the side: no bid is above the best bid and no ask below the
      best ask. */
  lemma BestPriceIsExtreme(s: Side, h: seq<Order>, i: int)
    requires IsBest(s, h, i)
    ensures h[i].price == BestPrice(s, h)
    ensures s == Buy ==> forall j :: 0 <= j < |h| ==> h[j].price <= BestPrice(s, h)
    ensures s == Sell ==> forall j :: 0 <= j < |h| ==> h[j].price >= BestPrice(s, h)
  {
    var f := FirstBest(s, h);
    assert !Ahead(s, h[i], h[f]) && !Ahead(s, h[f], h[i]);
  }

  /** Conversely, an order at the extreme price is a best one. */
  lemma ExtremePriceIsBest(s: Side, h: seq<Order>, i: int)
    requires 0 <= i < |h|
    requires h[i].price == BestPrice(s, h)
    ensures IsBest(s, h, i)
  {
    BestPriceIsExtreme(s, h, FirstBest(s, h));
  }

  /** `OrderHeap.Push` / `heapq.heappush`: the order joins the queue. */
  function Push(h: seq<Order>, o: Order): (r: seq<Order>)
    ensures |r| == |h| + 1
    ensures multiset(r) == multiset(h) + multiset{o}
    ensures forall k :: 0 <= k < |h| ==> r[k] == h[k]
  {
    h + [o]
  }

  /** Removing the order at position `i`, as `heap.Pop` / `heapq.heappop` do
      with the top: that one order leaves, every other one stays. */
  function RemoveAt(h: seq<Order>, i: nat): (r: seq<Order>)
    requires i < |h|
    ensures |r| == |h| - 1
    ensures multiset(r) == multiset(h) - multiset{h[i]}
    ensures forall k :: 0 <= k < i ==> r[k] == h[k]
    ensures forall k :: i < k < |h| ==> r[k - 1] == h[k]
  {
    assert h == h[..i] + [h[i]] + h[i + 1..];
    h[..i] + h[i + 1..]
  }

  /** The total remaining amount of a queue. */
  function Volume(h: seq<Order>): int
    decreases |h|
  {
    if |h| == 0 then 0 else h[0].amount + Volume(h[1..])
  }

  lemma {:induction false} VolumeConcat(a: seq<Order>, b: seq<Order>)
    ensures Volume(a + b) == Volume(a) + Volume(b)
    decreases |a|
  {
    if |a| == 0 {
      assert a + b == b;
    } else {
      assert (a + b)[1..] == a[1..] + b;
      VolumeConcat(a[1..], b);
    }
  }

  /** Pushing adds the order's amount to the queue's volume. */
  lemma VolumePush(h: seq<Order>, o: Order)
    ensures Volume(Push(h, o)) == Volume(h) + o.amount
  {
    VolumeConcat(h, [o]);
    assert [o][1..] == [];
  }

  /** Removing an order takes its amount off the queue's volume. */
  lemma VolumeRemoveAt(h: seq<Order>, i: nat)
    requires i < |h|
    ensures Volume(RemoveAt(h, i)) == Volume(h) - h[i].amount
  {
    assert h == h[..i] + h[i..];
    VolumeConcat(h[..i], h[i..]);
    assert h[i..][1..] == h[i + 1..];
    VolumeConcat(h[..i], h[i + 1..]);
  }

  /** Replacing an order changes the volume by the difference of amounts. */
  lemma VolumeUpdate(h: seq<Order>, i: nat, o: Order)
    requires i < |h|
    ensures Volume(h[i := o]) == Volume(h) - h[i].amount + o.amount
  {
    var u := h[i := o];
    assert h == h[..i] + h[i..];
    assert u == h[..i] + u[i..];
    VolumeConcat(h[..i], h[i..]);
    VolumeConcat(h[..i], u[i..]);
    assert h[i..][1..] == u[i..][1..];
  }

  /** The part of an order's remaining amount that belongs to user `u`. */
  function Share(o: Order, u: string): int {
    if o.userId == u then o.amount else 0
  }

  /** The total remaining amount of the orders user `u` has in a queue. */
  function UserVolume(h: seq<Order>, u: string): int
    decreases |h|
  {
    if |h| == 0 then 0 else Share(h[0], u) + UserVolume(h[1..], u)
  }

  lemma {:induction false} UserVolumeConcat(a: seq<Order>, b: seq<Order>, u: string)
    ensures UserVolume(a + b, u) == UserVolume(a, u) + UserVolume(b, u)
    decreases |a|
  {
    if |a| == 0 {
      assert a + b == b;
    } else {
      assert (a + b)[1..] == a[1..] + b;
      UserVolumeConcat(a[1..], b, u);
    }
  }

  /** Removing an order takes its amount off its user's volume only. */
  lemma UserVolumeRemoveAt(h: seq<Order>, i: nat, u: string)
    requires i < |h|
    ensures UserVolume(RemoveAt(h, i), u) == UserVolume(h, u) - Share(h[i], u)
  {
    assert h == h[..i] + h[i..];
    UserVolumeConcat(h[..i], h[i..], u);
    assert h[i..][1..] == h[i + 1..];
    UserVolumeConcat(h[..i], h[i + 1..], u);
  }

  /** Replacing an order changes only the replaced and the new order's users' volumes. */
  lemma UserVolumeUpdate(h: seq<Order>, i: nat, o: Order, u: string)
    requires i < |h|
    ensures UserVolume(h[i := o], u) == UserVolume(h, u) - Share(h[i], u) + Share(o, u)
  {
    var r := h[i := o];
    assert h == h[..i] + h[i..];
    assert r == h[..i] + r[i..];
    UserVolumeConcat(h[..i], h[i..], u);
    UserVolumeConcat(h[..i], r[i..], u);
    assert h[i..][1..] == r[i..][1..];
  }

  /** Every order of the queue is routed to side `s`. */
  predicate AllOnSide(s: Side, h: seq<Order>) {
    forall k :: 0 <= k < |h| ==> SideOf(h[k]) == s
  }

  /** In a queue whose orders all belong to one side, the source's comparator
      and the model's ranking agree, so the positions with no order "less"
      than them (the ones a heap may keep at index 0) are exactly the best
      positions: the max bid on the buy heap, the min ask on the sell heap. */
  lemma HeapMinimumIsBest(s: Side, h: seq<Order>, i: int)
    requires AllOnSide(s, h)
    requires 0 <= i < |h|
    ensures (forall j :: 0 <= j < |h| ==> !LessThan(h[j], h[i])) <==> IsBest(s, h, i)
  {
    forall j | 0 <= j < |h|
      ensures LessThan(h[j], h[i]) <==> Ahead(s, h[j], h[i])
    {
      LtRanksBySide(h[j], h[i]);
    }
  }

  /** Every order of the queue trades `asset`. */
  predicate AllForAsset(asset: string, h: seq<Order>) {
    forall k :: 0 <= k < |h| ==> h[k].asset == asset
  }

  /** Every amount in the queue lies in `[1, hi]`. */
  predicate AmountsIn(h: seq<Order>, hi: int) {
    forall k :: 0 <= k < |h| ==> 1 <= h[k].amount <= hi
  }

  function Prices(h: seq<Order>): (r: set<int>)
    ensures forall k :: 0 <= k < |h| ==> h[k].price in r
  {
    set k | 0 <= k < |h| :: h[k].price
  }

  function Users(h: seq<Order>): (r: set<string>)
    ensures forall k :: 0 <= k < |h| ==> h[k].userId in r
  {
    set k | 0 <= k < |h| :: h[k].userId
  }
}
