/** The value-level steps behind the ladder's methods. */
module LadderSteps {
  import opened Types
  import opened BookSpec
  import opened SweepTheorems
  import opened BookInvariants
  import opened BookTheorems
  import opened Pools
  import opened Ticks
  import opened Links

  lemma {:induction false} EmptyFlat(qs: Queues, side: Side, k: nat)
    requires k <= |qs| && forall p :: 0 <= p < |qs| ==> qs[p] == []
    ensures Flat(qs, side, k) == []
    decreases |qs| - k
  {
    if k < |qs| {
      EmptyFlat(qs, side, k + 1);
    }
  }

  lemma EmptyView(qs: Queues)
    requires forall p :: 0 <= p < |qs| ==> qs[p] == []
    ensures View(qs) == Book([], [])
  {
    EmptyFlat(qs, Buy, 0);
    EmptyFlat(qs, Sell, 0);
  }

  lemma EmptyLevels(levels: seq<PriceLevel>, nodes: Slots, chains: seq<seq<Handle>>, qs: Queues)
    requires |levels| == |chains| == |qs|
    requires forall p :: 0 <= p < |qs| ==> qs[p] == [] && chains[p] == [] && levels[p] == NO_ORDERS
    ensures LevelsOk(levels, nodes, chains, qs)
  {
    forall p | 0 <= p < |levels|
      ensures LevelOk(levels[p], nodes, chains[p], qs[p], p)
    {
      assert qs[p] == [] && chains[p] == [];
    }
  }

  lemma LevelsArePriced(levels: seq<PriceLevel>, nodes: Slots, chains: seq<seq<Handle>>, qs: Queues)
    requires LevelsOk(levels, nodes, chains, qs)
    ensures Priced(qs)
  {
    forall p, i | 0 <= p < |qs| && 0 <= i < |qs[p]|
      ensures qs[p][i].price == p
    {
      assert LevelOk(levels[p], nodes, chains[p], qs[p], p);
    }
  }

  /** The arrays of a ladder with the chains and queues they encode. */
  datatype Rep = Rep(levels: seq<PriceLevel>, nodes: Slots, chains: seq<seq<Handle>>, queues: Queues) {
    ghost function Content(): Book {
      View(queues)
    }

    ghost function Orders(): map<Handle, Order> {
      OrdersIn(nodes)
    }
  }

  /** Chains and free list share out the slots, and the queues they spell form a proper book. */
  ghost predicate Wired(r: Rep, free: seq<Handle>, inUse: nat) {
    && |r.levels| <= MAX_PRICE + 1
    && LevelsOk(r.levels, r.nodes, r.chains, r.queues)
    && Chained(r.Orders(), r.chains)
    && Partition(r.Orders(), free, |r.nodes|)
    && inUse == r.Content().Count()
    && BookOk(r.Content())
  }

  /** One empty sequence per tick. */
  ghost function Blank<T>(n: nat): (s: seq<seq<T>>)
    ensures |s| == n && forall p :: 0 <= p < n ==> s[p] == []
  {
    seq(n, _ => [])
  }

  /** A fresh ladder: every slot free, every level empty. */
  lemma EmptyStep(r: Rep, free: seq<Handle>)
    requires |r.levels| == |r.chains| == |r.queues| <= MAX_PRICE + 1
    requires forall p :: 0 <= p < |r.levels| ==> r.queues[p] == [] && r.chains[p] == [] && r.levels[p] == NO_ORDERS
    requires forall h :: 0 <= h < |r.nodes| ==> r.nodes[h].NextFree?
    requires |free| == |r.nodes| && forall i :: 0 <= i < |free| ==> free[i] == i
    ensures Wired(r, free, 0) && r.Content() == Book([], []) && r.Orders() == map[]
    ensures BestPrice(r.Content().bids) == BestPrice(r.Content().asks) == -1
  {
    hide LevelsOk, View;
    EmptyView(r.queues);
    EmptyLevels(r.levels, r.nodes, r.chains, r.queues);
    assert r.Orders() == map[];
    forall h: nat | h < |r.nodes|
      ensures h in free
    {
      assert free[h] == h;
    }
  }

  /** Where an order's slot stands in the chain of its price. */
  lemma ChainIndex(r: Rep, free: seq<Handle>, inUse: nat, h: Handle) returns (i: nat)
    requires Wired(r, free, inUse) && h in r.Orders()
    ensures var o := r.Orders()[h];
      && |r.levels| == |r.chains| == |r.queues| && h !in free
      && 0 <= o.price < |r.levels| && i < |r.chains[o.price]| == |r.queues[o.price]|
      && r.chains[o.price][i] == h
      && LevelOk(r.levels[o.price], r.nodes, r.chains[o.price], r.queues[o.price], o.price)
      && r.queues[o.price][i] == o
      && r.nodes[h] == Value(Linked(o, Before(r.chains[o.price], i), After(r.chains[o.price], i)))
  {
    var p := r.Orders()[h].price;
    assert LevelOk(r.levels[p], r.nodes, r.chains[p], r.queues[p], p);
    i :| 0 <= i < |r.chains[p]| && r.chains[p][i] == h;
    LevelOrder(r.levels[p], r.nodes, r.chains[p], r.queues[p], p, i);
  }

  // ---------- resize ----------

  ghost function ResizeRep(r: Rep, p: nat, i: nat, qty: nat): Rep
    requires p < |r.levels| == |r.chains| == |r.queues| && i < |r.chains[p]| == |r.queues[p]|
    requires r.chains[p][i] < |r.nodes| && r.nodes[r.chains[p][i]].Value?
  {
    var o := r.queues[p][i].(remaining := qty);
    var h := r.chains[p][i];
    var lv := r.levels[p];
    var total := lv.total - (r.queues[p][i].remaining - qty);
    r.(levels := r.levels[p := lv.(total := if total >= 0 then total else 0)],
       nodes := r.nodes[h := Value(r.nodes[h].value.(order := o))],
       queues := r.queues[p := r.queues[p][i := o]])
  }

  lemma ResizeBests(b: Book, id: nat, qty: nat)
    requires Live(b, id)
    ensures var w := Resize(b, id, qty);
      && BestPrice(w.bids) == BestPrice(b.bids) && BestPrice(w.asks) == BestPrice(b.asks)
      && w.Count() == b.Count()
  {
  }

  lemma ResizeLevels(r: Rep, p: nat, i: nat, qty: nat)
    requires LevelsOk(r.levels, r.nodes, r.chains, r.queues) && p < |r.levels|
    requires i < |r.chains[p]| == |r.queues[p]| && qty <= r.queues[p][i].remaining
    ensures r.chains[p][i] < |r.nodes| && r.nodes[r.chains[p][i]].Value?
    ensures r.levels[p].total >= r.queues[p][i].remaining - qty
    ensures var w := ResizeRep(r, p, i, qty);
      && LevelsOk(w.levels, w.nodes, w.chains, w.queues)
      && w.Orders() == r.Orders()[r.chains[p][i] := r.queues[p][i].(remaining := qty)]
  {
    assert LevelOk(r.levels[p], r.nodes, r.chains[p], r.queues[p], p);
    ResizeLevel(r.levels[p], r.nodes, r.chains[p], r.queues[p], p, i, qty);
    var w := ResizeRep(r, p, i, qty);
    OneLevelChanges(r.levels, r.nodes, r.chains, r.queues, p, w.levels[p], w.nodes, r.chains[p], w.queues[p]);
    assert r.chains[p := r.chains[p]] == r.chains;
  }

  /** Resizing in the slot resizes in the book. */
  lemma ResizeStep(r: Rep, free: seq<Handle>, inUse: nat, h: Handle, p: nat, i: nat, qty: nat)
    requires Wired(r, free, inUse) && p < |r.levels| == |r.chains| == |r.queues| && i < |r.chains[p]| == |r.queues[p]|
    requires r.chains[p][i] == h && h in r.Orders() && r.Orders()[h] == r.queues[p][i]
    requires qty <= r.queues[p][i].remaining
    ensures h < |r.nodes| && r.nodes[h].Value?
    ensures r.levels[p].total >= r.queues[p][i].remaining - qty
    ensures var w, id := ResizeRep(r, p, i, qty), r.Orders()[h].id;
      && Wired(w, free, inUse)
      && w.Orders() == r.Orders()[h := r.Orders()[h].(remaining := qty)]
      && Live(r.Content(), id) && Lookup(r.Content(), id) == r.Orders()[h]
      && w.Content() == Resize(r.Content(), id, qty)
      && BestPrice(w.Content().bids) == BestPrice(r.Content().bids)
      && BestPrice(w.Content().asks) == BestPrice(r.Content().asks)
  {
    hide BookOk, Flat, Find, LevelOk, LevelsOk, Total;
    var id := r.Orders()[h].id;
    ResizeLevels(r, p, i, qty);
    UpdateResizes(r.queues, p, i, qty);
    ResizeGood(r.Content(), id, qty);
    ResizeBests(r.Content(), id, qty);
  }

  lemma WiredParts(r: Rep, free: seq<Handle>, inUse: nat)
    requires Wired(r, free, inUse)
    ensures |r.levels| == |r.chains| == |r.queues| <= MAX_PRICE + 1
    ensures LevelsOk(r.levels, r.nodes, r.chains, r.queues) && Priced(r.queues) && BookOk(r.Content())
    ensures inUse == r.Content().Count()
  {
    LevelsArePriced(r.levels, r.nodes, r.chains, r.queues);
  }

  /** A level's head is null exactly when no order rests there. */
  lemma HeadTells(r: Rep, free: seq<Handle>, inUse: nat, p: nat)
    requires Wired(r, free, inUse) && p < |r.levels| && |r.nodes| <= NULL
    ensures |r.chains[p]| == |r.queues[p]|
    ensures r.levels[p] == PriceLevel(HeadOf(r.chains[p]), LastOf(r.chains[p]), Total(r.queues[p]))
    ensures r.levels[p].head == NULL <==> r.queues[p] == []
    ensures r.queues[p] != [] ==> r.levels[p].head in r.Orders() && r.Orders()[r.levels[p].head] == r.queues[p][0]
    ensures r.queues[p] != [] ==> r.levels[p].tail in r.Orders() && r.levels[p].tail !in free
  {
    assert LevelOk(r.levels[p], r.nodes, r.chains[p], r.queues[p], p);
    if r.queues[p] != [] {
      LevelOrder(r.levels[p], r.nodes, r.chains[p], r.queues[p], p, 0);
      LevelOrder(r.levels[p], r.nodes, r.chains[p], r.queues[p], p, |r.chains[p]| - 1);
    }
  }

  // ---------- append ----------

  ghost function AppendRep(r: Rep, h: Handle, o: Order): Rep
    requires h < |r.nodes| && 0 <= o.price < |r.levels| == |r.chains| == |r.queues|
    requires r.chains[o.price] != [] ==>
               LastOf(r.chains[o.price]) < |r.nodes| && r.nodes[LastOf(r.chains[o.price])].Value?
  {
    var p := o.price;
    var chain := r.chains[p];
    Rep(r.levels[p := PriceLevel(HeadOf(chain + [h]), h, r.levels[p].total + o.remaining)],
        AppendNodes(r.nodes, chain, h, o),
        r.chains[p := chain + [h]],
        r.queues[p := r.queues[p] + [o]])
  }

  lemma AppendLevels(r: Rep, h: Handle, o: Order)
    requires LevelsOk(r.levels, r.nodes, r.chains, r.queues) && 0 <= o.price < |r.levels|
    requires h < |r.nodes| && r.nodes[h].NextFree?
    ensures r.chains[o.price] != [] ==>
              LastOf(r.chains[o.price]) < |r.nodes| && r.nodes[LastOf(r.chains[o.price])].Value?
    ensures var w := AppendRep(r, h, o);
      LevelsOk(w.levels, w.nodes, w.chains, w.queues) && w.Orders() == r.Orders()[h := o] && |w.nodes| == |r.nodes|
  {
    hide Total, BestPrice;
    var p := o.price;
    assert LevelOk(r.levels[p], r.nodes, r.chains[p], r.queues[p], p);
    AppendLevel(r.levels[p], r.nodes, r.chains[p], r.queues[p], p, h, o);
    var w := AppendRep(r, h, o);
    OneLevelChanges(r.levels, r.nodes, r.chains, r.queues, p, w.levels[p], w.nodes, w.chains[p], w.queues[p]);
  }

  lemma ChainedAppend(orders: map<Handle, Order>, chains: seq<seq<Handle>>, h: Handle, o: Order)
    requires Chained(orders, chains) && h !in orders && 0 <= o.price < |chains|
    ensures Chained(orders[h := o], chains[o.price := chains[o.price] + [h]])
  {
  }

  /** Linking a new order at the tail of its level rests it in the book. */
  lemma AppendStep(r: Rep, free: seq<Handle>, inUse: nat, h: Handle, rest: seq<Handle>, o: Order)
    requires Wired(r, free, inUse) && free == [h] + rest && h !in rest && h < |r.nodes|
    requires 0 <= o.price < |r.levels| && !Live(r.Content(), o.id)
    requires !TopCrosses(r.Content().On(o.side.Opposite()), Taker(o.id, o.side, o.price, o.owner))
    ensures |r.levels| == |r.chains| == |r.queues| && h !in r.Orders()
    ensures r.chains[o.price] != [] ==>
              LastOf(r.chains[o.price]) < |r.nodes| && r.nodes[LastOf(r.chains[o.price])].Value?
    ensures var w := AppendRep(r, h, o);
      Wired(w, rest, inUse + 1) && w.Orders() == r.Orders()[h := o] && w.Content() == Rest(r.Content(), o)
  {
    hide BookOk, Flat, Find, LevelOk, LevelsOk, Total, Chained, Slot;
    WiredParts(r, free, inUse);
    assert h in free;
    assert h !in r.Orders();
    AppendLevels(r, h, o);
    AppendRests(r.queues, o);
    RestApart(r.Content(), o);
    ChainedAppend(r.Orders(), r.chains, h, o);
  }

  lemma RestApart(b: Book, o: Order)
    requires BookOk(b) && !Live(b, o.id) && 0 <= o.price <= MAX_PRICE
    requires !TopCrosses(b.On(o.side.Opposite()), Taker(o.id, o.side, o.price, o.owner))
    ensures BookOk(Rest(b, o)) && Rest(b, o).Count() == b.Count() + 1
  {
    hide BookOk, Find, Slot;
    var side := o.side.Opposite();
    SideOfBook(b, side);
    NoCrossBeyondTop(side, b.On(side), Taker(o.id, o.side, o.price, o.owner));
    RestBookOk(b, o);
    InsertAtIndex(b.On(o.side), Slot(o.side, b.On(o.side), o.price), o);
  }

  /** Resting moves the best price exactly when the new price beats it. */
  lemma RestBest(b: Book, o: Order)
    requires BookOk(b) && o.price >= 0
    ensures var best := BestPrice(b.On(o.side));
      && BestPrice(Rest(b, o).On(o.side)) == (if best == -1 || !NotWorse(o.side, best, o.price) then o.price else best)
      && BestPrice(Rest(b, o).On(o.side.Opposite())) == BestPrice(b.On(o.side.Opposite()))
      && best >= -1
  {
    var q := b.On(o.side);
    SideOfBook(b, o.side);
    var k := Slot(o.side, q, o.price);
    InsertAtIndex(q, k, o);
    assert q != [] ==> 0 <= q[0].price;
  }

  // ---------- unlink ----------

  ghost function UnlinkRep(r: Rep, p: nat, i: nat, nodes2: Slots): Rep
    requires p < |r.levels| == |r.chains| == |r.queues| && i < |r.chains[p]| == |r.queues[p]|
    requires r.levels[p].total >= r.queues[p][i].remaining
  {
    var chain := RemoveAt(r.chains[p], i);
    Rep(r.levels[p := PriceLevel(HeadOf(chain), LastOf(chain), r.levels[p].total - r.queues[p][i].remaining)],
        nodes2,
        r.chains[p := chain],
        r.queues[p := RemoveAt(r.queues[p], i)])
  }

  /** `nodes2` is `nodes` with slot `h` and the free slots given over to the free list. */
  ghost predicate Released(nodes: Slots, nodes2: Slots, free: seq<Handle>, free2: seq<Handle>, h: Handle) {
    && |nodes2| == |nodes| && h < |nodes|
    && (forall k :: k in free2 <==> k in free || k == h)
    && (forall k: nat :: k < |nodes| && k !in free && k != h ==> nodes2[k] == nodes[k])
    && (forall k: nat :: k < |nodes| && k in free2 ==> nodes2[k].NextFree?)
  }

  lemma SlotReleased(nodes: Slots, nodes2: Slots, free: seq<Handle>, free2: seq<Handle>, h: Handle)
    requires |nodes2| == |nodes| && h < |nodes| && (free2 == [h] + free || free2 == free + [h])
    requires forall k: nat :: k < |nodes| && k !in free && k != h ==> nodes2[k] == nodes[k]
    requires forall k: nat :: k < |nodes| && k in free2 ==> nodes2[k].NextFree?
    ensures Released(nodes, nodes2, free, free2, h)
  {
  }

  lemma ReleasedOrders(nodes: Slots, nodes2: Slots, free: seq<Handle>, free2: seq<Handle>, h: Handle)
    requires Partition(OrdersIn(nodes), free, |nodes|) && Released(nodes, nodes2, free, free2, h)
    ensures OrdersIn(nodes2) == OrdersIn(nodes) - {h}
    ensures Partition(OrdersIn(nodes2), free2, |nodes2|)
  {
    forall k: nat | k < |nodes|
      ensures k in OrdersIn(nodes2) <==> k in OrdersIn(nodes) && k != h
      ensures k in OrdersIn(nodes2) ==> OrdersIn(nodes2)[k] == OrdersIn(nodes)[k]
    {
      assert k in free2 <==> k in free || k == h;
    }
  }

  lemma ChainedRemove(orders: map<Handle, Order>, chains: seq<seq<Handle>>, p: nat, i: nat)
    requires Chained(orders, chains) && p < |chains| && i < |chains[p]| && Distinct(chains[p])
    ensures Chained(orders - {chains[p][i]}, chains[p := RemoveAt(chains[p], i)])
  {
    DistinctRemove(chains[p], i);
  }

  lemma UnlinkLevels(r: Rep, free: seq<Handle>, inUse: nat, p: nat, i: nat, nodes2: Slots, free2: seq<Handle>)
    requires Wired(r, free, inUse) && p < |r.levels| && i < |r.chains[p]| == |r.queues[p]|
    requires forall j :: 0 <= j < |r.chains[p]| ==> r.chains[p][j] < |r.nodes| && r.nodes[r.chains[p][j]].Value?
    requires Released(UnlinkNodes(r.nodes, r.chains[p], i), nodes2, free, free2, r.chains[p][i])
    ensures r.levels[p].total >= r.queues[p][i].remaining
    ensures var w := UnlinkRep(r, p, i, nodes2);
      LevelsOk(w.levels, w.nodes, w.chains, w.queues)
  {
    hide BookOk, Flat, Total, Chained, Partition;
    WiredParts(r, free, inUse);
    assert LevelOk(r.levels[p], r.nodes, r.chains[p], r.queues[p], p);
    var chain := r.chains[p];
    UnlinkOrders(r.levels[p], r.nodes, chain, r.queues[p], p, i);
    ReleasedFrame(r, free, inUse, p, i, nodes2, free2);
    UnlinkLevel(r.levels[p], r.nodes, chain, r.queues[p], p, i, nodes2);
    var w := UnlinkRep(r, p, i, nodes2);
    OneLevelChanges(r.levels, r.nodes, r.chains, r.queues, p, w.levels[p], w.nodes, w.chains[p], w.queues[p]);
  }

  lemma ReleasedFrame(r: Rep, free: seq<Handle>, inUse: nat, p: nat, i: nat, nodes2: Slots, free2: seq<Handle>)
    requires Wired(r, free, inUse) && p < |r.levels| && i < |r.chains[p]| == |r.queues[p]|
    requires forall j :: 0 <= j < |r.chains[p]| ==> r.chains[p][j] < |r.nodes| && r.nodes[r.chains[p][j]].Value?
    requires Released(UnlinkNodes(r.nodes, r.chains[p], i), nodes2, free, free2, r.chains[p][i])
    ensures OnlyTick(r.nodes, nodes2, p)
    ensures forall j :: 0 <= j < |r.chains[p]| && j != i ==>
              nodes2[r.chains[p][j]] == UnlinkNodes(r.nodes, r.chains[p], i)[r.chains[p][j]]
  {
    hide BookOk, Flat, Total, Chained, LevelOk;
    var chain := r.chains[p];
    var lv, q := r.levels[p], r.queues[p];
    assert LevelOk(lv, r.nodes, chain, q, p);
    UnlinkOrders(lv, r.nodes, chain, q, p, i);
    LevelOrder(lv, r.nodes, chain, q, p, i);
    LevelDistinct(lv, r.nodes, chain, q, p);
    forall k | 0 <= k < |r.nodes| && r.nodes[k].Value? && r.nodes[k].value.order.price != p
      ensures nodes2[k] == r.nodes[k]
    {
      assert k in r.Orders();
    }
    forall j | 0 <= j < |chain| && j != i
      ensures nodes2[chain[j]] == UnlinkNodes(r.nodes, chain, i)[chain[j]]
    {
      LevelOrder(lv, r.nodes, chain, q, p, j);
      assert chain[j] in r.Orders();
    }
  }

  lemma LevelDistinct(lv: PriceLevel, nodes: Slots, chain: seq<Handle>, q: seq<Order>, p: int)
    requires LevelOk(lv, nodes, chain, q, p)
    ensures Distinct(chain) && (forall j :: 0 <= j < |q| ==> q[j].price == p)
  {
  }

  /** Splicing an order out of its chain and freeing its slot cancels it in the book. */
  lemma UnlinkStep(r: Rep, free: seq<Handle>, inUse: nat, p: nat, i: nat, nodes2: Slots, free2: seq<Handle>)
    requires Wired(r, free, inUse) && p < |r.levels| && i < |r.chains[p]| == |r.queues[p]|
    requires forall j :: 0 <= j < |r.chains[p]| ==> r.chains[p][j] < |r.nodes| && r.nodes[r.chains[p][j]].Value?
    requires Released(UnlinkNodes(r.nodes, r.chains[p], i), nodes2, free, free2, r.chains[p][i])
    ensures r.levels[p].total >= r.queues[p][i].remaining && inUse > 0
    ensures var w, o := UnlinkRep(r, p, i, nodes2), r.queues[p][i];
      && Wired(w, free2, inUse - 1)
      && w.Orders() == r.Orders() - {r.chains[p][i]}
      && Live(r.Content(), o.id) && Lookup(r.Content(), o.id) == o
      && w.Content() == Cancel(r.Content(), o.id)
  {
    hide BookOk, Flat, Find, LevelOk, LevelsOk, Total, Chained, UnlinkNodes, Released, Partition;
    WiredParts(r, free, inUse);
    UnlinkLevels(r, free, inUse, p, i, nodes2, free2);
    LevelAt(r, p);
    UnlinkOrders(r.levels[p], r.nodes, r.chains[p], r.queues[p], p, i);
    ReleasedOrders(UnlinkNodes(r.nodes, r.chains[p], i), nodes2, free, free2, r.chains[p][i]);
    LevelDistinct(r.levels[p], r.nodes, r.chains[p], r.queues[p], p);
    ChainedRemove(r.Orders(), r.chains, p, i);
    RemoveCancels(r.queues, p, i);
    CancelGood(r.Content(), r.queues[p][i].id);
  }

  lemma LevelAt(r: Rep, p: nat)
    requires LevelsOk(r.levels, r.nodes, r.chains, r.queues) && p < |r.levels|
    ensures LevelOk(r.levels[p], r.nodes, r.chains[p], r.queues[p], p)
  {
  }

  // ---------- the best price after an order has left ----------

  /** Unless the best level was emptied, the best prices stand. */
  lemma BestStands(qs: Queues, p: nat, i: nat)
    requires BookOk(View(qs)) && Priced(qs) && p < |qs| && i < |qs[p]|
    ensures var side, w := qs[p][0].side, View(qs[p := RemoveAt(qs[p], i)]);
      && BestPrice(w.On(side.Opposite())) == BestPrice(View(qs).On(side.Opposite()))
      && (|qs[p]| > 1 || p != BestPrice(View(qs).On(side)) ==> BestPrice(w.On(side)) == BestPrice(View(qs).On(side)))
  {
    hide BookOk, Flat;
    var side, w := qs[p][0].side, RemoveAt(qs[p], i);
    RemoveHolds(qs, p, i);
    var a, c := Splice(qs, side, p, w);
    if a == [] {
      assert View(qs).On(side)[0] == qs[p][0];
    }
    if w != [] {
      assert w[0].price == p;
    }
  }

  /**
   The reprice scan never asks which side a level belongs to. It still finds the next best level
   of the emptied side, because in an uncrossed book nothing beyond that side's best is of the other.
   */
  lemma ScanFindsBest(qs: Queues, side: Side, p: nat, j: nat)
    requires BookOk(View(qs)) && Priced(qs) && p < |qs|
    requires |qs[p]| == 1 && qs[p][0].side == side && BestPrice(View(qs).On(side)) == p
    requires RankOf(side, |qs|, p) < j <= |qs|
    requires forall r :: RankOf(side, |qs|, p) < r < j ==> qs[TickAt(side, |qs|, r)] == []
    requires j < |qs| ==> qs[TickAt(side, |qs|, j)] != []
    ensures BestPrice(View(qs[p := []]).On(side)) == if j < |qs| then TickAt(side, |qs|, j) else -1
  {
    hide BookOk, Flat, BestPrice;
    var w := qs[p := []];
    assert Priced(w);
    BestTick(qs, side);
    forall r | 0 <= r < j
      ensures Part(w[TickAt(side, |w|, r)], side) == []
    {
      assert RankOf(side, |qs|, TickAt(side, |qs|, r)) == r;
    }
    if j < |qs| {
      SameSideBeyond(qs, side, p, TickAt(side, |qs|, j));
    }
    BestIsFirst(w, side, j);
  }

  // ---------- counting reachable liquidity ----------

  /** The downward scan from an emptied best bid. */
  lemma BidScanEnds(qs: Queues, w: Queues, p: nat, best: int)
    requires BookOk(View(qs)) && Priced(qs) && p < |qs|
    requires w == qs[p := []] && |qs[p]| == 1 && qs[p][0].side == Buy && BestPrice(View(qs).bids) == p
    requires -1 <= best <= p && (best >= 0 ==> w[best] != [])
    requires forall r :: best < r <= p ==> w[r] == []
    ensures BestPrice(View(w).bids) == best
  {
    hide BookOk, View, BestPrice;
    var j := |qs| - 1 - best;
    forall r | RankOf(Buy, |qs|, p) < r < j
      ensures qs[TickAt(Buy, |qs|, r)] == []
    {
      assert w[TickAt(Buy, |qs|, r)] == [];
    }
    ScanFindsBest(qs, Buy, p, j);
  }

  /** The upward scan from an emptied best ask. */
  lemma AskScanEnds(qs: Queues, w: Queues, p: nat, best: int)
    requires BookOk(View(qs)) && Priced(qs) && p < |qs|
    requires w == qs[p := []] && |qs[p]| == 1 && qs[p][0].side == Sell && BestPrice(View(qs).asks) == p
    requires best == -1 || p <= best < |qs|
    requires best >= 0 ==> w[best] != []
    requires forall r :: p <= r < (if best == -1 then |qs| else best) ==> w[r] == []
    ensures BestPrice(View(w).asks) == best
  {
    hide BookOk, View, BestPrice;
    var j := if best == -1 then |qs| else best;
    forall r | RankOf(Sell, |qs|, p) < r < j
      ensures qs[TickAt(Sell, |qs|, r)] == []
    {
      assert w[TickAt(Sell, |qs|, r)] == [];
    }
    ScanFindsBest(qs, Sell, p, j);
  }

  lemma {:induction false} ReachIs(q: seq<Order>, t: Taker, i: nat)
    requires i <= |q| && (forall j :: 0 <= j < i ==> CanTrade(t, q[j])) && (i < |q| ==> !CanTrade(t, q[i]))
    ensures Reach(q, t) == i && Available(q, t) == Total(q[..i])
  {
  }

  lemma {:induction false} ReachAppend(a: seq<Order>, c: seq<Order>, t: Taker)
    ensures Reach(a + c, t) == if Reach(a, t) == |a| then |a| + Reach(c, t) else Reach(a, t)
  {
    var k := if Reach(a, t) == |a| then |a| + Reach(c, t) else Reach(a, t);
    assert forall i :: |a| <= i < |a + c| ==> (a + c)[i] == c[i - |a|];
    ReachIs(a + c, t, k);
  }

  lemma AvailableAppend(a: seq<Order>, c: seq<Order>, t: Taker)
    ensures Available(a + c, t) ==
            if Reach(a, t) == |a| then Total(a) + Available(c, t) else Available(a, t)
  {
    ReachAppend(a, c, t);
    if Reach(a, t) == |a| {
      assert (a + c)[..|a| + Reach(c, t)] == a + c[..Reach(c, t)];
      TotalAppend(a, c[..Reach(c, t)]);
    } else {
      assert (a + c)[..Reach(a, t)] == a[..Reach(a, t)];
    }
  }

  lemma TotalTake(q: seq<Order>, i: nat)
    requires i < |q|
    ensures Total(q[..i + 1]) == Total(q[..i]) + q[i].remaining
  {
    assert q[..i + 1] == q[..i] + [q[i]];
    TotalAppend(q[..i], [q[i]]);
    assert [q[i]][1..] == [];
  }

  /** One tick's share of what a taker can reach from that tick on. */
  lemma CountStep(qs: Queues, side: Side, best: nat, p: nat, t: Taker)
    requires BookOk(View(qs)) && Priced(qs) && best < |qs| && p < |qs|
    requires BestPrice(View(qs).On(side)) == best && RankOf(side, |qs|, best) <= RankOf(side, |qs|, p)
    ensures var k := RankOf(side, |qs|, p);
      Available(Flat(qs, side, k), t) ==
      if Reach(qs[p], t) == |qs[p]| then Total(qs[p]) + Available(Flat(qs, side, k + 1), t) else Available(qs[p], t)
  {
    hide BookOk, Flat, Reach, Available, Total, BestPrice;
    BestTick(qs, side);
    SameSideBeyond(qs, side, best, p);
    FlatStep(qs, side, p, qs[p]);
    assert qs[p := qs[p]] == qs;
    AvailableAppend(qs[p], Flat(qs, side, RankOf(side, |qs|, p) + 1), t);
  }

  /** Before the best tick there is nothing. */
  lemma CountStart(qs: Queues, side: Side, best: nat)
    requires Priced(qs) && best < |qs| && BestPrice(View(qs).On(side)) == best
    ensures View(qs).On(side) == Flat(qs, side, RankOf(side, |qs|, best))
  {
    BestTick(qs, side);
    assert forall r :: 0 <= r < RankOf(side, |qs|, best) ==> RankOf(side, |qs|, TickAt(side, |qs|, r)) == r;
    FlatSkips(qs, side, 0, RankOf(side, |qs|, best));
  }

  /** Beyond the limit price nothing can be reached. */
  lemma CountEnd(qs: Queues, side: Side, k: nat, t: Taker)
    requires Priced(qs) && k <= |qs|
    requires forall p :: 0 <= p < |qs| && RankOf(side, |qs|, p) >= k ==> !Crosses(t, p)
    ensures Available(Flat(qs, side, k), t) == 0
  {
    FlatPrices(qs, side, k);
  }

  /** The neighbours of the `i`-th slot are on loan, and the ends of the chain are known with and without it. */
  ghost predicate NeighboursOk(lv: PriceLevel, chain: seq<Handle>, i: nat, free: seq<Handle>)
    requires i < |chain|
  {
    && (i > 0 ==> chain[i - 1] !in free && chain[i - 1] != NULL)
    && (i + 1 < |chain| ==> chain[i + 1] !in free && chain[i + 1] != NULL)
    && (i > 0 && i + 1 < |chain| ==> chain[i - 1] != chain[i + 1])
    && lv.head == HeadOf(chain) && lv.tail == LastOf(chain)
    && HeadOf(RemoveAt(chain, i)) == (if i > 0 then HeadOf(chain) else After(chain, i))
    && LastOf(RemoveAt(chain, i)) == (if i + 1 < |chain| then LastOf(chain) else Before(chain, i))
  }

  /** The neighbours of an order, and what its level becomes without it. */
  lemma SpliceFacts(r: Rep, free: seq<Handle>, inUse: nat, p: nat, i: nat)
    requires Wired(r, free, inUse) && p < |r.levels| == |r.chains| == |r.queues| && i < |r.chains[p]| == |r.queues[p]|
    requires |r.nodes| <= NULL
    requires LevelOk(r.levels[p], r.nodes, r.chains[p], r.queues[p], p)
    ensures var chain := r.chains[p];
      && (forall j :: 0 <= j < |chain| ==> chain[j] < |r.nodes| && r.nodes[chain[j]].Value?)
      && r.levels[p].total >= r.queues[p][i].remaining
      && NeighboursOk(r.levels[p], chain, i, free)
  {
    hide BookOk, View, LevelsOk, Chained, LevelOk, Total;
    var chain := r.chains[p];
    ChainIsValues(r.levels[p], r.nodes, chain, r.queues[p], p);
    LevelCached(r.levels[p], r.nodes, chain, r.queues[p], p, i);
    LevelDistinct(r.levels[p], r.nodes, chain, r.queues[p], p);
    forall j | 0 <= j < |chain|
      ensures chain[j] !in free
    {
      assert chain[j] in r.Orders();
    }
    assert |RemoveAt(chain, i)| == |chain| - 1;
  }

  lemma LevelCached(lv: PriceLevel, nodes: Slots, chain: seq<Handle>, q: seq<Order>, p: int, i: nat)
    requires LevelOk(lv, nodes, chain, q, p) && i < |q|
    ensures lv.head == HeadOf(chain) && lv.tail == LastOf(chain) && lv.total == Total(q) >= q[i].remaining
  {
    TotalRemove(q, i);
  }

  lemma EmptyTotal()
    ensures Total([]) == 0
    ensures forall q: seq<Order> :: Total(q[..0]) == 0
  {
  }

  lemma AllPriced(qs: Queues, p: nat)
    requires Priced(qs) && p < |qs|
    ensures forall i :: 0 <= i < |qs[p]| ==> qs[p][i].price == p
  {
  }

  lemma LevelLengths(lv: PriceLevel, nodes: Slots, chain: seq<Handle>, q: seq<Order>, p: int)
    requires LevelOk(lv, nodes, chain, q, p)
    ensures |chain| == |q| && forall i :: 0 <= i < |q| ==> q[i].price == p
    ensures forall i :: 0 <= i < |chain| ==> chain[i] < |nodes|
  {
    forall i | 0 <= i < |chain|
      ensures chain[i] < |nodes|
    {
      assert NodeOk(nodes, chain, q, i);
    }
  }

  // ---------- slots and ids ----------

  /** An order in a slot is live in the book. */
  lemma SlotIsLive(r: Rep, free: seq<Handle>, inUse: nat, h: Handle)
    requires Wired(r, free, inUse) && h in r.Orders()
    ensures Live(r.Content(), r.Orders()[h].id)
    ensures Lookup(r.Content(), r.Orders()[h].id) == r.Orders()[h]
  {
    hide BookOk, Flat, Find, LevelOk;
    WiredParts(r, free, inUse);
    var i := ChainIndex(r, free, inUse, h);
    PositionLive(r.queues, r.Orders()[h].price, i);
  }

  /** A live order lies in some slot. */
  lemma LiveIsSlotted(r: Rep, free: seq<Handle>, inUse: nat, id: nat) returns (h: Handle)
    requires Wired(r, free, inUse) && Live(r.Content(), id)
    ensures h in r.Orders() && r.Orders()[h] == Lookup(r.Content(), id)
  {
    hide BookOk, Flat, LevelOk;
    WiredParts(r, free, inUse);
    var side := SideHolding(r.Content(), id);
    var p, j := FlatSource(r.queues, side, 0, Find(r.Content().On(side), id));
    LevelAt(r, p);
    LevelLengths(r.levels[p], r.nodes, r.chains[p], r.queues[p], p);
    LevelOrder(r.levels[p], r.nodes, r.chains[p], r.queues[p], p, j);
    h := r.chains[p][j];
  }

  /** The id index and the occupied slots determine each other. */
  ghost predicate IndexOk(idx: map<nat, Handle>, orders: map<Handle, Order>) {
    && (forall id :: id in idx ==> idx[id] in orders && orders[idx[id]].id == id)
    && (forall h :: h in orders ==> orders[h].id in idx && idx[orders[h].id] == h)
  }

  lemma IndexTellsLive(r: Rep, free: seq<Handle>, inUse: nat, idx: map<nat, Handle>, id: nat)
    requires Wired(r, free, inUse) && IndexOk(idx, r.Orders())
    ensures id in idx <==> Live(r.Content(), id)
    ensures id in idx ==> idx[id] in r.Orders() && r.Orders()[idx[id]] == Lookup(r.Content(), id)
  {
    hide Wired, Live, Lookup;
    if id in idx {
      SlotIsLive(r, free, inUse, idx[id]);
    }
    if Live(r.Content(), id) {
      var h := LiveIsSlotted(r, free, inUse, id);
      LookupId(r.Content(), id);
    }
  }

  lemma IndexResize(idx: map<nat, Handle>, orders: map<Handle, Order>, h: Handle, qty: nat)
    requires IndexOk(idx, orders) && h in orders
    ensures IndexOk(idx, orders[h := orders[h].(remaining := qty)])
  {
  }

  lemma IndexErase(idx: map<nat, Handle>, orders: map<Handle, Order>, h: Handle)
    requires IndexOk(idx, orders) && h in orders
    ensures IndexOk(idx - {orders[h].id}, orders - {h})
  {
  }

  lemma IndexInsert(idx: map<nat, Handle>, orders: map<Handle, Order>, h: Handle, o: Order)
    requires IndexOk(idx, orders) && h !in orders && o.id !in idx
    ensures IndexOk(idx[o.id := h], orders[h := o])
  {
  }

  /** The orders of a ladder are priced within its ticks. */
  lemma PricesInRange(qs: Queues, side: Side)
    requires Priced(qs)
    ensures forall i :: 0 <= i < |View(qs).On(side)| ==> 0 <= View(qs).On(side)[i].price < |qs|
  {
    FlatPrices(qs, side, 0);
  }

  // ---------- every slot has one place ----------

  /** Chains and free list partition the slots: each is free or on one chain, once, never both. */
  lemma SlotsPartitioned(r: Rep, free: seq<Handle>, inUse: nat, h: Handle)
    requires Wired(r, free, inUse) && h < |r.nodes|
    ensures h in free <==> !exists p, i :: 0 <= p < |r.chains| && 0 <= i < |r.chains[p]| && r.chains[p][i] == h
    ensures forall p, i, s, j ::
      (0 <= p < |r.chains| && 0 <= i < |r.chains[p]| && r.chains[p][i] == h &&
       0 <= s < |r.chains| && 0 <= j < |r.chains[s]| && r.chains[s][j] == h) ==> p == s && i == j
  {
    hide BookOk, View, LevelOk, Total;
    forall p, i | 0 <= p < |r.chains| && 0 <= i < |r.chains[p]| && r.chains[p][i] == h
      ensures h in r.Orders() && r.Orders()[h].price == p && h !in free && Distinct(r.chains[p])
    {
      LevelAt(r, p);
      LevelLengths(r.levels[p], r.nodes, r.chains[p], r.queues[p], p);
      LevelOrder(r.levels[p], r.nodes, r.chains[p], r.queues[p], p, i);
      LevelDistinct(r.levels[p], r.nodes, r.chains[p], r.queues[p], p);
    }
    if h !in free {
      var i := ChainIndex(r, free, inUse, h);
    }
  }
}
