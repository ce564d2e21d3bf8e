/**
 From queues indexed by price to the two priority sequences of a book. `qs[p]` is the queue at
 tick `p`; bids and asks share the ticks, and a queue belongs to the side of its first order.
 */
module Ticks {
  import opened Types
  import opened BookSpec
  import opened BookInvariants

  type Queues = seq<seq<Order>>

  /** The tick with the `k`-th best price for orders resting on `side`. */
  function TickAt(side: Side, n: nat, k: nat): (p: nat)
    requires k < n
    ensures p < n
  {
    if side.Sell? then k else n - 1 - k
  }

  /** How good a tick is: the inverse of TickAt, which is the same expression. */
  function RankOf(side: Side, n: nat, p: nat): (k: nat)
    requires p < n
    ensures k < n && TickAt(side, n, k) == p
  {
    TickAt(side, n, p)
  }

  function Part(q: seq<Order>, side: Side): seq<Order> {
    if q != [] && q[0].side == side then q else []
  }

  /** The orders of `side` from the `k`-th best tick on. */
  function Flat(qs: Queues, side: Side, k: nat): seq<Order>
    requires k <= |qs|
    decreases |qs| - k
  {
    if k == |qs| then [] else Part(qs[TickAt(side, |qs|, k)], side) + Flat(qs, side, k + 1)
  }

  /** The orders of `side` at the `k` best ticks. */
  function Front(qs: Queues, side: Side, k: nat): seq<Order>
    requires k <= |qs|
  {
    if k == 0 then [] else Front(qs, side, k - 1) + Part(qs[TickAt(side, |qs|, k - 1)], side)
  }

  function View(qs: Queues): Book {
    Book(Flat(qs, Buy, 0), Flat(qs, Sell, 0))
  }

  ghost predicate Priced(qs: Queues) {
    forall p, i :: 0 <= p < |qs| && 0 <= i < |qs[p]| ==> qs[p][i].price == p
  }

  /** The queue is free for `side`: empty, or already of that side. */
  predicate Holds(q: seq<Order>, side: Side) {
    q != [] ==> q[0].side == side
  }

  // ---------- splitting and splicing ----------

  lemma {:induction false} FlatSplit(qs: Queues, side: Side, k: nat)
    requires k <= |qs|
    ensures Flat(qs, side, 0) == Front(qs, side, k) + Flat(qs, side, k)
  {
    if k > 0 {
      FlatSplit(qs, side, k - 1);
      assert Flat(qs, side, k - 1) == Part(qs[TickAt(side, |qs|, k - 1)], side) + Flat(qs, side, k);
    }
  }

  lemma {:induction false} FrontFrame(qs: Queues, side: Side, k: nat, p: nat, q: seq<Order>)
    requires p < |qs| && k <= RankOf(side, |qs|, p)
    ensures Front(qs[p := q], side, k) == Front(qs, side, k)
  {
    if k > 0 {
      FrontFrame(qs, side, k - 1, p, q);
    }
  }

  lemma {:induction false} FlatFrame(qs: Queues, side: Side, k: nat, p: nat, q: seq<Order>)
    requires p < |qs| && RankOf(side, |qs|, p) < k <= |qs|
    ensures Flat(qs[p := q], side, k) == Flat(qs, side, k)
    decreases |qs| - k
  {
    if k < |qs| {
      FlatFrame(qs, side, k + 1, p, q);
    }
  }

  lemma FlatStep(qs: Queues, side: Side, p: nat, q: seq<Order>)
    requires p < |qs|
    ensures var k := RankOf(side, |qs|, p);
      Flat(qs[p := q], side, k) == Part(q, side) + Flat(qs, side, k + 1)
  {
    hide Flat, Part;
    FlatUnfolds(qs[p := q], side, RankOf(side, |qs|, p));
    FlatFrame(qs, side, RankOf(side, |qs|, p) + 1, p, q);
  }

  lemma FlatUnfolds(qs: Queues, side: Side, k: nat)
    requires k < |qs|
    ensures Flat(qs, side, k) == Part(qs[TickAt(side, |qs|, k)], side) + Flat(qs, side, k + 1)
  {
  }

  /** Replacing one queue replaces one stretch of the side, between the better and the worse ticks. */
  lemma FlatSplice(qs: Queues, side: Side, p: nat, q: seq<Order>)
    requires p < |qs|
    ensures var k := RankOf(side, |qs|, p);
      Flat(qs[p := q], side, 0) == Front(qs, side, k) + Part(q, side) + Flat(qs, side, k + 1)
  {
    hide Flat, Front, Part;
    var k := RankOf(side, |qs|, p);
    FlatSplit(qs[p := q], side, k);
    FrontFrame(qs, side, k, p, q);
    FlatStep(qs, side, p, q);
    Associates(Front(qs, side, k), Part(q, side), Flat(qs, side, k + 1));
  }

  lemma Associates<T>(a: seq<T>, b: seq<T>, c: seq<T>)
    ensures a + (b + c) == a + b + c
  {
  }

  /** The side as better ticks, tick `p`, worse ticks. */
  lemma FlatAround(qs: Queues, side: Side, p: nat)
    requires p < |qs|
    ensures var k := RankOf(side, |qs|, p);
      Flat(qs, side, 0) == Front(qs, side, k) + Part(qs[p], side) + Flat(qs, side, k + 1)
  {
    hide Flat, Front, Part;
    assert qs[p := qs[p]] == qs;
    FlatSplice(qs, side, p, qs[p]);
  }

  /** Every order of `q` rests at a strictly better tick for `side` than `p`. */
  ghost predicate AllBetter(side: Side, q: seq<Order>, p: int) {
    forall i :: 0 <= i < |q| ==> !NotWorse(side, p, q[i].price)
  }

  ghost predicate AllWorse(side: Side, q: seq<Order>, p: int) {
    forall i :: 0 <= i < |q| ==> !NotWorse(side, q[i].price, p)
  }

  /** A queue of `side` at tick `p` can be replaced where it stands, the rest of the book untouched. */
  lemma Splice(qs: Queues, side: Side, p: nat, q: seq<Order>) returns (a: seq<Order>, c: seq<Order>)
    requires p < |qs| && Holds(qs[p], side) && Holds(q, side)
    ensures View(qs).On(side) == a + qs[p] + c
    ensures View(qs[p := q]) == View(qs).With(side, a + q + c)
    ensures qs[p] != [] ==> |a| == Position(qs, p, 0)
    ensures Priced(qs) ==> AllBetter(side, a, p) && AllWorse(side, c, p)
  {
    hide Flat, Front, AllBetter, AllWorse, Priced;
    var k := RankOf(side, |qs|, p);
    a, c := Front(qs, side, k), Flat(qs, side, k + 1);
    FlatAround(qs, side, p);
    FlatSplice(qs, side, p, q);
    OtherSideFrame(qs, side, p, q);
    if Priced(qs) {
      PricesAround(qs, side, p);
    }
  }

  lemma OtherSideFrame(qs: Queues, side: Side, p: nat, q: seq<Order>)
    requires p < |qs| && Holds(qs[p], side) && Holds(q, side)
    ensures Flat(qs[p := q], side.Opposite(), 0) == Flat(qs, side.Opposite(), 0)
  {
    hide Flat, Front;
    FlatAround(qs, side.Opposite(), p);
    FlatSplice(qs, side.Opposite(), p, q);
    assert Part(qs[p], side.Opposite()) == Part(q, side.Opposite());
  }

  lemma PricesAround(qs: Queues, side: Side, p: nat)
    requires p < |qs| && Priced(qs)
    ensures var k := RankOf(side, |qs|, p);
      AllBetter(side, Front(qs, side, k), p) && AllWorse(side, Flat(qs, side, k + 1), p)
  {
    FrontPrices(qs, side, RankOf(side, |qs|, p));
    FlatPrices(qs, side, RankOf(side, |qs|, p) + 1);
  }

  // ---------- where the orders of a side come from ----------

  lemma {:induction false} FrontPrices(qs: Queues, side: Side, k: nat)
    requires Priced(qs) && k <= |qs|
    ensures forall i :: 0 <= i < |Front(qs, side, k)| ==>
      0 <= Front(qs, side, k)[i].price < |qs| && RankOf(side, |qs|, Front(qs, side, k)[i].price) < k
  {
    if k > 0 {
      FrontPrices(qs, side, k - 1);
    }
  }

  lemma {:induction false} FlatPrices(qs: Queues, side: Side, k: nat)
    requires Priced(qs) && k <= |qs|
    ensures forall i :: 0 <= i < |Flat(qs, side, k)| ==>
      0 <= Flat(qs, side, k)[i].price < |qs| && RankOf(side, |qs|, Flat(qs, side, k)[i].price) >= k
    decreases |qs| - k
  {
    if k < |qs| {
      FlatPrices(qs, side, k + 1);
    }
  }

  /** Every order of a side sits in the queue of its own price. */
  lemma {:induction false} FlatSource(qs: Queues, side: Side, k: nat, i: nat) returns (p: nat, j: nat)
    requires k <= |qs| && i < |Flat(qs, side, k)|
    ensures p < |qs| && j < |qs[p]| && qs[p][0].side == side && Flat(qs, side, k)[i] == qs[p][j]
    decreases |qs| - k
  {
    p := TickAt(side, |qs|, k);
    var here := Part(qs[p], side);
    if i < |here| {
      j := i;
    } else {
      p, j := FlatSource(qs, side, k + 1, i - |here|);
    }
  }

  /** Position of the `i`-th order of tick `p` in its side. */
  function Position(qs: Queues, p: nat, i: nat): nat
    requires p < |qs| && i < |qs[p]|
  {
    var side := qs[p][0].side;
    |Front(qs, side, RankOf(side, |qs|, p))| + i
  }

  lemma PositionOf(qs: Queues, p: nat, i: nat)
    requires p < |qs| && i < |qs[p]|
    ensures var q := View(qs).On(qs[p][0].side);
      Position(qs, p, i) < |q| && q[Position(qs, p, i)] == qs[p][i]
  {
    FlatAround(qs, qs[p][0].side, p);
  }

  /** In a well-formed book every queue is one-sided. */
  lemma OneSided(qs: Queues, p: nat, i: nat)
    requires BookOk(View(qs)) && p < |qs| && i < |qs[p]|
    ensures qs[p][i].side == qs[p][0].side
  {
    PositionOf(qs, p, i);
  }

  /** Ticks worse than one held by `side` are empty or held by `side` too. */
  lemma SameSideBeyond(qs: Queues, side: Side, p: nat, r: nat)
    requires BookOk(View(qs)) && Priced(qs) && p < |qs| && r < |qs|
    requires qs[p] != [] && qs[p][0].side == side
    requires RankOf(side, |qs|, p) <= RankOf(side, |qs|, r)
    ensures Holds(qs[r], side)
  {
    if qs[r] != [] && qs[r][0].side != side {
      PositionOf(qs, p, 0);
      PositionOf(qs, r, 0);
      ApartFromOther(View(qs), side, Position(qs, p, 0));
      assert false;
    }
  }

  // ---------- the best tick ----------

  /** The best rank at which `side` has orders, from rank `k` on; the number of ticks if none. */
  function FirstRank(qs: Queues, side: Side, k: nat): (j: nat)
    requires k <= |qs|
    ensures k <= j <= |qs|
    ensures forall i :: k <= i < j ==> Part(qs[TickAt(side, |qs|, i)], side) == []
    ensures j < |qs| ==> Part(qs[TickAt(side, |qs|, j)], side) != []
    decreases |qs| - k
  {
    if k == |qs| || Part(qs[TickAt(side, |qs|, k)], side) != [] then k else FirstRank(qs, side, k + 1)
  }

  lemma {:induction false} FlatSkips(qs: Queues, side: Side, k: nat, j: nat)
    requires k <= j <= |qs|
    requires forall i :: k <= i < j ==> Part(qs[TickAt(side, |qs|, i)], side) == []
    ensures Flat(qs, side, k) == Flat(qs, side, j)
    decreases j - k
  {
    if k < j {
      FlatSkips(qs, side, k + 1, j);
    }
  }

  /** The best price of a side is the tick of its first rank. */
  lemma BestIsFirst(qs: Queues, side: Side, j: nat)
    requires Priced(qs) && j <= |qs|
    requires forall i :: 0 <= i < j ==> Part(qs[TickAt(side, |qs|, i)], side) == []
    requires j < |qs| ==> Part(qs[TickAt(side, |qs|, j)], side) != []
    ensures BestPrice(Flat(qs, side, 0)) == if j < |qs| then TickAt(side, |qs|, j) else -1
    ensures Flat(qs, side, 0) == Flat(qs, side, j)
  {
    FlatSkips(qs, side, 0, j);
  }

  /** What the best price says about the queues. */
  lemma BestTick(qs: Queues, side: Side)
    requires Priced(qs)
    ensures var best := BestPrice(View(qs).On(side));
      if best == -1 then
        View(qs).On(side) == [] && forall p :: 0 <= p < |qs| ==> Part(qs[p], side) == []
      else
        && 0 <= best < |qs| && qs[best] != [] && qs[best][0].side == side
        && (forall p :: 0 <= p < |qs| && RankOf(side, |qs|, p) < RankOf(side, |qs|, best) ==> Part(qs[p], side) == [])
        && View(qs).On(side) == qs[best] + Flat(qs, side, RankOf(side, |qs|, best) + 1)
  {
    var j := FirstRank(qs, side, 0);
    BestIsFirst(qs, side, j);
    forall p | 0 <= p < |qs| && RankOf(side, |qs|, p) < j
      ensures Part(qs[p], side) == []
    {
      assert TickAt(side, |qs|, RankOf(side, |qs|, p)) == p;
    }
  }

  // ---------- the operations on queues ----------

  /** Appending at tick `p` is resting, when nothing on the other side is crossed. */
  lemma AppendRests(qs: Queues, o: Order)
    requires BookOk(View(qs)) && Priced(qs) && 0 <= o.price < |qs|
    requires !TopCrosses(View(qs).On(o.side.Opposite()), Taker(o.id, o.side, o.price, o.owner))
    ensures Holds(qs[o.price], o.side)
    ensures View(qs[o.price := qs[o.price] + [o]]) == Rest(View(qs), o)
  {
    hide BookOk, View, Slot, TopCrosses, InsertAt, AllBetter, AllWorse;
    var p, side := o.price, o.side;
    FreeForSide(qs, o);
    var a, c := Splice(qs, side, p, qs[p] + [o]);
    assert forall i :: 0 <= i < |qs[p]| ==> qs[p][i].price == p;
    SlotBehind(side, a, qs[p], c, p);
    SpliceInsert(a, qs[p], c, o);
  }

  /** A new order at tick `p` belongs right behind that tick's queue. */
  lemma SlotBehind(side: Side, a: seq<Order>, q: seq<Order>, c: seq<Order>, p: int)
    requires AllBetter(side, a, p) && AllWorse(side, c, p)
    requires forall i :: 0 <= i < |q| ==> q[i].price == p
    ensures Slot(side, a + q + c, p) == |a + q|
  {
    hide Slot;
    SlotAfter(side, a + q, c, p);
  }

  lemma SpliceInsert<T>(a: seq<T>, q: seq<T>, c: seq<T>, o: T)
    ensures InsertAt(a + q + c, |a + q|, o) == a + (q + [o]) + c
  {
    assert (a + q + c)[..|a + q|] == a + q;
  }

  lemma SpliceRemove<T>(a: seq<T>, q: seq<T>, c: seq<T>, i: nat)
    requires i < |q|
    ensures RemoveAt(a + q + c, |a| + i) == a + RemoveAt(q, i) + c
  {
    assert (a + q + c)[..|a| + i] == a + q[..i];
    assert (a + q + c)[|a| + i + 1..] == q[i + 1..] + c;
  }

  lemma SpliceUpdate<T>(a: seq<T>, q: seq<T>, c: seq<T>, i: nat, o: T)
    requires i < |q|
    ensures (a + q + c)[|a| + i := o] == a + q[i := o] + c
  {
  }

  lemma FreeForSide(qs: Queues, o: Order)
    requires BookOk(View(qs)) && Priced(qs) && 0 <= o.price < |qs|
    requires !TopCrosses(View(qs).On(o.side.Opposite()), Taker(o.id, o.side, o.price, o.owner))
    ensures Holds(qs[o.price], o.side)
  {
    if qs[o.price] != [] && qs[o.price][0].side != o.side {
      var other := o.side.Opposite();
      assert qs[o.price][0].side == other;
      PositionOf(qs, o.price, 0);
      NoCrossBeyondTop(other, View(qs).On(other), Taker(o.id, o.side, o.price, o.owner));
    }
  }

  lemma {:induction false} SlotAfter(side: Side, a: seq<Order>, c: seq<Order>, price: int)
    requires forall i :: 0 <= i < |a| ==> NotWorse(side, a[i].price, price)
    requires c != [] ==> !NotWorse(side, c[0].price, price)
    ensures Slot(side, a + c, price) == |a|
  {
    if a != [] {
      SlotAfter(side, a[1..], c, price);
      assert (a + c)[1..] == a[1..] + c;
    } else {
      assert a + c == c;
    }
  }

  /** The spec finds an order where the queues put it. */
  lemma PositionLive(qs: Queues, p: nat, i: nat)
    requires BookOk(View(qs)) && p < |qs| && i < |qs[p]|
    ensures var b, o := View(qs), qs[p][i];
      && Live(b, o.id) && Lookup(b, o.id) == o && SideHolding(b, o.id) == qs[p][0].side
      && Find(b.On(qs[p][0].side), o.id) == Position(qs, p, i)
      && Position(qs, p, i) < |b.On(qs[p][0].side)|
  {
    PositionOf(qs, p, i);
    LiveAt(View(qs), qs[p][0].side, Position(qs, p, i));
  }

  lemma RemoveHolds(qs: Queues, p: nat, i: nat)
    requires BookOk(View(qs)) && p < |qs| && i < |qs[p]|
    ensures Holds(RemoveAt(qs[p], i), qs[p][0].side)
  {
    if |qs[p]| > 1 {
      OneSided(qs, p, 1);
    }
  }

  /** Taking an order out of its queue is cancelling it. */
  lemma RemoveCancels(qs: Queues, p: nat, i: nat)
    requires BookOk(View(qs)) && p < |qs| && i < |qs[p]|
    ensures Live(View(qs), qs[p][i].id) && Lookup(View(qs), qs[p][i].id) == qs[p][i]
    ensures View(qs[p := RemoveAt(qs[p], i)]) == Cancel(View(qs), qs[p][i].id)
  {
    hide BookOk, View, Flat, Front, Find, Live, Lookup;
    var side := qs[p][0].side;
    var w := RemoveAt(qs[p], i);
    PositionLive(qs, p, i);
    RemoveHolds(qs, p, i);
    var a, c := Splice(qs, side, p, w);
    SpliceRemove(a, qs[p], c, i);
  }

  /** Changing the size of an order in its queue is resizing it. */
  lemma UpdateResizes(qs: Queues, p: nat, i: nat, qty: nat)
    requires BookOk(View(qs)) && p < |qs| && i < |qs[p]|
    ensures Live(View(qs), qs[p][i].id) && Lookup(View(qs), qs[p][i].id) == qs[p][i]
    ensures View(qs[p := qs[p][i := qs[p][i].(remaining := qty)]]) == Resize(View(qs), qs[p][i].id, qty)
  {
    hide BookOk, View, Flat, Front, Find, Live, Lookup;
    var side := qs[p][0].side;
    var o := qs[p][i].(remaining := qty);
    PositionLive(qs, p, i);
    var a, c := Splice(qs, side, p, qs[p][i := o]);
    SpliceUpdate(a, qs[p], c, i, o);
  }

  // ---------- sizes per tick ----------

  lemma {:induction false} SizeAtAppend(a: seq<Order>, c: seq<Order>, p: int)
    ensures SizeAt(a + c, p) == SizeAt(a, p) + SizeAt(c, p)
  {
    if a == [] {
      assert a + c == c;
    } else {
      SizeAtAppend(a[1..], c, p);
      assert (a + c)[1..] == a[1..] + c;
    }
  }

  lemma {:induction false} SizeAtAll(q: seq<Order>, p: int)
    ensures (forall i :: 0 <= i < |q| ==> q[i].price == p) ==> SizeAt(q, p) == Total(q)
    ensures (forall i :: 0 <= i < |q| ==> q[i].price != p) ==> SizeAt(q, p) == 0
  {
    if q != [] {
      SizeAtAll(q[1..], p);
    }
  }

  /** The size a side shows at a tick is the total of that tick's queue, if the queue is of that side. */
  lemma SizeAtTick(qs: Queues, side: Side, p: nat)
    requires Priced(qs) && p < |qs|
    ensures SizeAt(View(qs).On(side), p) == Total(Part(qs[p], side))
  {
    hide Flat, Front, SizeAt, Total, AllBetter, AllWorse;
    var k := RankOf(side, |qs|, p);
    FlatAround(qs, side, p);
    PricesAround(qs, side, p);
    assert forall i :: 0 <= i < |qs[p]| ==> qs[p][i].price == p;
    SizeAtMiddle(side, Front(qs, side, k), Part(qs[p], side), Flat(qs, side, k + 1), p);
  }

  lemma SizeAtMiddle(side: Side, a: seq<Order>, q: seq<Order>, c: seq<Order>, p: int)
    requires AllBetter(side, a, p) && AllWorse(side, c, p)
    requires forall i :: 0 <= i < |q| ==> q[i].price == p
    ensures SizeAt(a + q + c, p) == Total(q)
  {
    hide SizeAt, Total;
    SizeAtAppend(a + q, c, p);
    SizeAtAppend(a, q, p);
    SizeAtAll(a, p);
    SizeAtAll(q, p);
    SizeAtAll(c, p);
  }
}
