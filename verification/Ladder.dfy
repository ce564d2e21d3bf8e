/**
 The price ladder: levels indexed by tick, order slots in a pool, cached best prices. OrderBook and
 PhotonBook carry the same text for these fields and routines; it is modelled once, here.
 */
module Ladders {
  import opened Types
  import opened BookSpec
  import opened Pools
  import opened Ticks
  import opened Links
  import opened LadderSteps

  method NewLevels(n: nat) returns (levels: array<PriceLevel>)
    ensures fresh(levels) && levels.Length == n
    ensures forall p :: 0 <= p < n ==> levels[..][p] == NO_ORDERS
  {
    levels := new PriceLevel[n](_ => NO_ORDERS);
  }

  class Ladder {
    const levels: array<PriceLevel>
    const pool: Pool<Linked>
    var bestBid: int
    var bestAsk: int
    /** The handles at each tick, oldest first, and the orders in those slots. */
    ghost var chains: seq<seq<Handle>>
    ghost var queues: Queues

    ghost function Orders(): map<Handle, Order>
      reads this, pool, pool.nodes
    {
      OrdersIn(pool.nodes[..])
    }

    ghost function Content(): Book
      reads this
    {
      View(queues)
    }

    ghost function Repr(): set<object> {
      {this, levels, pool, pool.nodes}
    }

    ghost function Image(): Rep
      reads this, levels, pool, pool.nodes
    {
      Rep(levels[..], pool.nodes[..], chains, queues)
    }

    /** Everything but the cached best prices. */
    ghost predicate Linking()
      reads this, levels, pool, pool.nodes
    {
      pool.Valid() && Wired(Image(), pool.free, pool.inUse)
    }

    ghost predicate BestsExact()
      reads this
    {
      bestBid == BestPrice(Content().bids) && bestAsk == BestPrice(Content().asks)
    }

    ghost predicate Valid()
      reads this, levels, pool, pool.nodes
    {
      Linking() && BestsExact()
    }

    constructor (policy: FreeListPolicy, tickRange: nat, maxOrders: nat)
      requires tickRange <= MAX_PRICE + 1 && maxOrders <= NULL
      ensures Valid() && fresh(Repr())
      ensures Content() == Book([], []) && Orders() == map[]
      ensures levels.Length == tickRange && pool.nodes.Length == maxOrders && pool.policy == policy
    {
      hide BookOk, View, LevelsOk, Chained, Partition, Wired, FreeChain, OrdersIn, BestPrice;
      var blank := NewLevels(tickRange);
      levels := blank;
      pool := new Pool(policy, maxOrders);
      bestBid, bestAsk := -1, -1;
      chains := Blank<Handle>(tickRange);
      queues := Blank<Order>(tickRange);
      new;
      EmptyStep(Image(), pool.free);
    }

    /** The slot of the oldest order at the best price of a side. */
    method Top(side: Side) returns (h: Handle)
      requires Valid() && Content().On(side) != []
      ensures h in Orders() && Orders()[h] == Content().On(side)[0]
    {
      LevelsArePriced(levels[..], pool.nodes[..], chains, queues);
      BestTick(queues, side);
      var best := if side.Sell? then bestAsk else bestBid;
      h := levels[best].head;
      assert LevelOk(Image().levels[best], pool.nodes[..], chains[best], queues[best], best);
      LevelOrder(levels[best], pool.nodes[..], chains[best], queues[best], best, 0);
    }

    /** Sets the size of an order where it stands, and takes the difference off its level. */
    method SetRemaining(h: Handle, qty: nat)
      requires Valid() && h in Orders() && qty <= Orders()[h].remaining
      modifies Repr()
      ensures Valid() && Live(old(Content()), old(Orders())[h].id)
      ensures Lookup(old(Content()), old(Orders())[h].id) == old(Orders())[h]
      ensures Content() == Resize(old(Content()), old(Orders())[h].id, qty)
      ensures Orders() == old(Orders())[h := old(Orders())[h].(remaining := qty)]
    {
      hide BookOk, View, LevelsOk, Chained, Partition, Resize, Lookup, Live, BestPrice, Wired, FreeChain;
      ghost var before := Image();
      var linked := pool.nodes[h].value;
      var p := linked.order.price;
      ghost var i := ChainIndex(before, pool.free, pool.inUse, h);
      ResizeStep(before, pool.free, pool.inUse, h, p, i, qty);
      pool.Put(h, linked.(order := linked.order.(remaining := qty)));
      levels[p] := levels[p].(total := levels[p].total - (linked.order.remaining - qty));
      queues := queues[p := queues[p][i := linked.order.(remaining := qty)]];
      assert Image() == ResizeRep(before, p, i, qty);
    }

    /** rest_order without the index entry: a new order at the tail of its level, or NULL when no slot is free. */
    method Append(o: Order) returns (h: Handle)
      requires Valid() && 0 <= o.price < levels.Length && !Live(Content(), o.id)
      requires !TopCrosses(Content().On(o.side.Opposite()), Taker(o.id, o.side, o.price, o.owner))
      modifies Repr()
      ensures Valid()
      ensures h == NULL <==> old(Content()).Count() == pool.nodes.Length
      ensures h == NULL ==> Content() == old(Content()) && Orders() == old(Orders())
      ensures h != NULL ==> h !in old(Orders()) && Orders() == old(Orders())[h := o]
      ensures h != NULL ==> Content() == Rest(old(Content()), o)
    {
      hide BookOk, View, LevelsOk, Chained, Partition, Live, BestPrice, Wired, FreeChain, Rest, Total, Find, TopCrosses;
      ghost var before, free := Image(), pool.free;
      WiredParts(before, free, pool.inUse);
      h := pool.Allocate();
      if h == NULL {
        assert Image() == before;
        return;
      }
      AppendStep(before, free, pool.inUse - 1, h, pool.free, o);
      LinkTail(h, o, before, free);
      RestBest(before.Content(), o);
      if o.side.Buy? {
        if bestBid < 0 || o.price > bestBid {
          bestBid := o.price;
        }
      } else {
        if bestAsk < 0 || o.price < bestAsk {
          bestAsk := o.price;
        }
      }
    }

    /** The linking half of Append, on the slot just allocated. */
    method LinkTail(h: Handle, o: Order, ghost before: Rep, ghost free: seq<Handle>)
      requires pool.Valid() && pool.Taken(h) && Image() == before && free == [h] + pool.free
      requires pool.inUse > 0 && Wired(before, free, pool.inUse - 1)
      requires 0 <= o.price < levels.Length && |before.levels| == |before.chains| == |before.queues|
      requires before.chains[o.price] != [] ==>
                 LastOf(before.chains[o.price]) < |before.nodes| && before.nodes[LastOf(before.chains[o.price])].Value?
      modifies levels, pool.nodes, this`chains, this`queues
      ensures pool.Valid() && pool.free == old(pool.free) && pool.inUse == old(pool.inUse)
      ensures Image() == AppendRep(before, h, o)
    {
      hide BookOk, View, LevelsOk, Chained, Partition, Wired, FreeChain, Total;
      var p := o.price;
      HeadTells(before, free, pool.inUse - 1, p);
      pool.Put(h, Linked(o, NULL, NULL));
      var lv := levels[p];
      if lv.head == NULL {
        levels[p] := PriceLevel(h, h, lv.total);
      } else {
        var oldTail := pool.nodes[lv.tail].value;
        pool.Put(lv.tail, oldTail.(next := h));
        pool.Put(h, Linked(o, lv.tail, NULL));
        levels[p] := lv.(tail := h);
      }
      levels[p] := levels[p].(total := levels[p].total + o.remaining);
      chains := chains[p := chains[p] + [h]];
      queues := queues[p := queues[p] + [o]];
      assert pool.nodes[..] == AppendNodes(before.nodes, before.chains[p], h, o);
      assert levels[..] == AppendRep(before, h, o).levels;
    }

    /** Moves the best bid down to the next occupied level, whatever its side. */
    method RepriceBestBid()
      requires Linking() && 0 <= bestBid < levels.Length
      modifies this`bestBid
      ensures Linking()
      ensures |queues| == levels.Length && -1 <= bestBid <= old(bestBid)
      ensures bestBid >= 0 ==> queues[bestBid] != []
      ensures forall p :: bestBid < p <= old(bestBid) ==> queues[p] == []
    {
      hide Wired, FreeChain, LevelsOk, BookOk, View, Priced, HeadOf, LastOf, Total, Rep.Orders;
      WiredParts(Image(), pool.free, pool.inUse);
      assert |queues| == |levels[..]|;
      var p := bestBid;
      while p >= 0 && levels[p].head == NULL
        invariant -1 <= p <= bestBid
        invariant forall r :: p < r <= bestBid ==> queues[r] == []
        modifies {}
      {
        HeadTells(Image(), pool.free, pool.inUse, p);
        p := p - 1;
      }
      if p >= 0 {
        HeadTells(Image(), pool.free, pool.inUse, p);
      }
      bestBid := if p >= 0 then p else -1;
    }

    /** Moves the best ask up to the next occupied level, whatever its side. */
    method RepriceBestAsk()
      requires Linking() && 0 <= bestAsk < levels.Length
      modifies this`bestAsk
      ensures Linking()
      ensures |queues| == levels.Length
      ensures bestAsk == -1 || old(bestAsk) <= bestAsk < levels.Length
      ensures bestAsk >= 0 ==> queues[bestAsk] != []
      ensures forall p :: old(bestAsk) <= p < (if bestAsk == -1 then levels.Length else bestAsk) ==> queues[p] == []
    {
      hide Wired, FreeChain, LevelsOk, BookOk, View, Priced, HeadOf, LastOf, Total, Rep.Orders;
      WiredParts(Image(), pool.free, pool.inUse);
      assert |queues| == |levels[..]|;
      var p := bestAsk;
      var maxTick := levels.Length;
      while p >= 0 && p < maxTick && levels[p].head == NULL
        invariant bestAsk <= p <= maxTick
        invariant forall r :: bestAsk <= r < p ==> queues[r] == []
        modifies {}
        decreases maxTick - p
      {
        HeadTells(Image(), pool.free, pool.inUse, p);
        p := p + 1;
      }
      if p < maxTick {
        HeadTells(Image(), pool.free, pool.inUse, p);
      }
      bestAsk := if p >= 0 && p < maxTick && levels[p].head != NULL then p else -1;
    }

    /** Links the neighbours of a slot to each other and takes the order off its level. */
    method SpliceOut(h: Handle, ghost i: nat)
      requires pool.Valid() && pool.Taken(h) && Wired(Image(), pool.free, pool.inUse)
      requires h in Orders()
      requires var p := Orders()[h].price;
        && |levels[..]| == |chains| == |queues| && 0 <= p < levels.Length && i < |chains[p]| == |queues[p]|
        && chains[p][i] == h && queues[p][i] == Orders()[h]
        && pool.nodes[h] == Value(Linked(Orders()[h], Before(chains[p], i), After(chains[p], i)))
        && LevelOk(levels[p], pool.nodes[..], chains[p], queues[p], p)
      modifies levels, pool.nodes
      ensures pool.Valid()
      ensures forall j :: 0 <= j < |chains[old(Orders())[h].price]| ==>
        var k := chains[old(Orders())[h].price][j]; k < |old(pool.nodes[..])| && old(pool.nodes[..])[k].Value?
      ensures pool.nodes[..] == UnlinkNodes(old(pool.nodes[..]), chains[old(Orders())[h].price], i)
      ensures var p, r := old(Orders())[h].price, old(Orders())[h].remaining;
        && old(levels[p]).total >= r
        && levels[..] == old(levels[..])[p := PriceLevel(HeadOf(RemoveAt(chains[p], i)), LastOf(RemoveAt(chains[p], i)),
                                                          old(levels[p]).total - r)]
    {
      hide BookOk, View, LevelsOk, Chained, Wired, FreeChain, Total;
      ghost var nodes, lvs := pool.nodes[..], levels[..];
      var o := pool.nodes[h].value;
      var p := o.order.price;
      SpliceFacts(Image(), pool.free, pool.inUse, p, i);
      if o.prev != NULL {
        pool.Put(o.prev, pool.nodes[o.prev].value.(next := o.next));
      } else {
        levels[p] := levels[p].(head := o.next);
      }
      if o.next != NULL {
        pool.Put(o.next, pool.nodes[o.next].value.(prev := o.prev));
      } else {
        levels[p] := levels[p].(tail := o.prev);
      }
      levels[p] := levels[p].(total := levels[p].total - o.order.remaining);
    }

    method FreeSlot(h: Handle)
      requires pool.Valid() && pool.Taken(h)
      modifies pool, pool.nodes
      ensures pool.Valid() && pool.inUse == old(pool.inUse) - 1
      ensures Released(old(pool.nodes[..]), pool.nodes[..], old(pool.free), pool.free, h)
    {
      hide FreeChain, Released;
      ghost var nodes, free := pool.nodes[..], pool.free;
      pool.Deallocate(h);
      SlotReleased(nodes, pool.nodes[..], free, pool.free, h);
    }

    /** Takes an order off its level and gives its slot back; the best prices may now be stale. */
    method Detach(h: Handle, o: Order) returns (ghost i: nat)
      requires Valid() && h in Orders() && Orders()[h] == o
      modifies levels, pool, pool.nodes, this`chains, this`queues
      ensures Linking() && |old(queues)| == levels.Length && BookOk(old(Content())) && Priced(old(queues))
      ensures 0 <= o.price < levels.Length && i < |old(queues)[o.price]| && old(queues)[o.price][i] == o
      ensures queues == old(queues)[o.price := RemoveAt(old(queues)[o.price], i)]
      ensures Live(old(Content()), o.id) && Lookup(old(Content()), o.id) == o
      ensures Content() == Cancel(old(Content()), o.id)
      ensures Orders() == old(Orders()) - {h}
    {
      hide BookOk, View, LevelsOk, Chained, Live, Lookup, BestPrice, Wired, FreeChain, Total, LevelOk,
           UnlinkNodes, Cancel, OrdersIn, Partition, Priced, Released, HeadOf, LastOf, Before, After, Pool.Valid;
      ghost var before, free := Image(), pool.free;
      WiredParts(before, free, pool.inUse);
      i := ChainIndex(before, pool.free, pool.inUse, h);
      SpliceOut(h, i);
      FreeSlot(h);
      ghost var nodes2 := pool.nodes[..];
      UnlinkStep(before, free, old(pool.inUse), o.price, i, nodes2, pool.free);
      chains := chains[o.price := RemoveAt(chains[o.price], i)];
      queues := queues[o.price := RemoveAt(queues[o.price], i)];
      assert Image() == UnlinkRep(before, o.price, i, nodes2);
    }

    /** Removes an order from its level, gives its slot back and refreshes the best price. */
    method UnlinkAndFree(h: Handle)
      requires Valid() && h in Orders()
      modifies Repr()
      ensures Valid() && Live(old(Content()), old(Orders())[h].id)
      ensures Lookup(old(Content()), old(Orders())[h].id) == old(Orders())[h]
      ensures Content() == Cancel(old(Content()), old(Orders())[h].id)
      ensures Orders() == old(Orders()) - {h}
    {
      hide BookOk, Flat, Wired, FreeChain, BestPrice, Cancel, Lookup, Live, Priced, Pool.Valid;
      var o := pool.nodes[h].value.order;
      ghost var qs := queues;
      ghost var i := Detach(h, o);
      OneSided(qs, o.price, i);
      RefreshBest(o.side, o.price, qs, i);
    }

    /** If the best level of a side has just emptied, look for the next. */
    method RefreshBest(side: Side, p: nat, ghost qs: Queues, ghost i: nat)
      requires Linking()
      requires BookOk(View(qs)) && Priced(qs) && p < |qs| == levels.Length && i < |qs[p]|
      requires bestBid == BestPrice(View(qs).bids) && bestAsk == BestPrice(View(qs).asks)
      requires qs[p][0].side == side && queues == qs[p := RemoveAt(qs[p], i)]
      modifies this`bestBid, this`bestAsk
      ensures Valid()
    {
      hide BookOk, Flat, View, Wired, FreeChain, BestPrice, Priced, HeadOf, LastOf, Total;
      BestStands(qs, p, i);
      HeadTells(Image(), pool.free, pool.inUse, p);
      BestTick(qs, side);
      if levels[p].head == NULL {
        assert queues[p] == [] && |qs[p]| == 1 && queues == qs[p := []];
        if side.Buy? && p == bestBid {
          RepriceBestBid();
          BidScanEnds(qs, queues, p, bestBid);
        } else if side.Sell? && p == bestAsk {
          RepriceBestAsk();
          AskScanEnds(qs, queues, p, bestAsk);
        }
      }
    }

    /** The size one side shows at a tick: the level's cached total, if its oldest order is of that side. */
    method SizeOn(side: Side, p: nat) returns (size: nat)
      requires Valid() && p < levels.Length
      ensures size == SizeAt(Content().On(side), p)
    {
      hide Wired, FreeChain, BookOk, Flat, Total, SizeAt, HeadOf, LastOf, LevelsOk;
      WiredParts(Image(), pool.free, pool.inUse);
      HeadTells(Image(), pool.free, pool.inUse, p);
      SizeAtTick(queues, side, p);
      EmptyTotal();
      var lv := levels[p];
      if lv.head == NULL {
        return 0;
      }
      return if pool.nodes[lv.head].value.order.side == side then lv.total else 0;
    }

    /** Adds what the taker can reach at one crossing tick; `more` when nothing there stops it. */
    method CountLevel(p: nat, t: Taker, available: nat) returns (more: bool, total: nat)
      requires Valid() && p < levels.Length && Crosses(t, p)
      ensures |queues| == levels.Length
      ensures more <==> Reach(queues[p], t) == |queues[p]|
      ensures total == available + if more then Total(queues[p]) else Available(queues[p], t)
    {
      hide Wired, FreeChain, BookOk, View, HeadOf, LastOf, LevelsOk, BestPrice, Reach, Available, Total;
      WiredParts(Image(), pool.free, pool.inUse);
      HeadTells(Image(), pool.free, pool.inUse, p);
      LevelAt(Image(), p);
      ghost var q, chain := queues[p], chains[p];
      AllPriced(queues, p);
      if t.owner == 0 {
        ReachIs(q, t, |q|);
        return true, available + levels[p].total;
      }
      more, total := WalkLevel(levels[p].head, p, t, available);
    }

    /** Walks a level's chain from its head, stopping at the first order of the taker's owner. */
    method WalkLevel(head: Handle, ghost p: nat, t: Taker, available: nat) returns (more: bool, total: nat)
      requires pool.Valid() && p < levels.Length && |chains| == |queues| == levels.Length
      requires LevelOk(levels[p], pool.nodes[..], chains[p], queues[p], p) && head == HeadOf(chains[p])
      requires t.owner != 0 && Crosses(t, p)
      ensures more <==> Reach(queues[p], t) == |queues[p]|
      ensures total == available + if more then Total(queues[p]) else Available(queues[p], t)
    {
      hide FreeChain, Total, Available, Reach, LevelOk;
      ghost var q, chain, nodes := queues[p], chains[p], pool.nodes[..];
      LevelLengths(levels[p], nodes, chain, q, p);
      total := available;
      EmptyTotal();
      var h := head;
      ghost var i := 0;
      while h != NULL
        invariant 0 <= i <= |q| && h == (if i < |q| then chain[i] else NULL)
        invariant total == available + Total(q[..i])
        invariant forall j :: 0 <= j < i ==> CanTrade(t, q[j])
        modifies {}
        decreases |q| - i
      {
        LevelOrder(levels[p], nodes, chain, q, p, i);
        TotalTake(q, i);
        var o := pool.nodes[h].value;
        if o.order.owner == t.owner {
          ReachIs(q, t, i);
          return false, total;
        }
        total := total + o.order.remaining;
        h := o.next;
        i := i + 1;
      }
      ReachIs(q, t, |q|);
      assert q[..|q|] == q;
      return true, total;
    }

    /** The fill-or-kill pre-check: a read-only walk of the crossing ticks, best first. */
    method CanFill(t: Taker, qty: nat) returns (ok: bool)
      requires Valid()
      ensures ok <==> TopCrosses(Content().On(t.side.Opposite()), t) && Available(Content().On(t.side.Opposite()), t) >= qty
    {
      hide Wired, FreeChain, BookOk, Flat, HeadOf, LastOf, LevelsOk, Reach, Available, Total, Priced;
      WiredParts(Image(), pool.free, pool.inUse);
      assert |queues| == |levels[..]|;
      BestTick(queues, t.side.Opposite());
      if t.side.Buy? {
        if bestAsk < 0 || bestAsk > t.limit {
          return false;
        }
        ok := CountAsks(t, qty);
      } else {
        if bestBid < 0 || bestBid < t.limit {
          return false;
        }
        ok := CountBids(t, qty);
      }
    }

    method CountAsks(t: Taker, qty: nat) returns (ok: bool)
      requires Valid() && t.side.Buy? && Content().asks != [] && bestAsk <= t.limit
      ensures ok <==> Available(Content().asks, t) >= qty
    {
      hide Wired, FreeChain, BookOk, Flat, HeadOf, LastOf, LevelsOk, Reach, Available, Total;
      WiredParts(Image(), pool.free, pool.inUse);
      assert |queues| == |levels[..]|;
      BestTick(queues, Sell);
      CountStart(queues, Sell, bestAsk);
      var available: nat := 0;
      var cap := levels.Length;
      var p := bestAsk;
      var more := true;
      while p < cap && p <= t.limit
        invariant bestAsk <= p <= cap
        invariant Available(Content().asks, t) == available + Available(Flat(queues, Sell, p), t)
        modifies {}
        decreases cap - p
      {
        CountStep(queues, Sell, bestAsk, p, t);
        more, available := CountLevel(p, t, available);
        if !more {
          break;
        }
        if available >= qty {
          return true;
        }
        p := p + 1;
      }
      if more {
        CountEnd(queues, Sell, p, t);
      }
      return available >= qty;
    }

    method CountBids(t: Taker, qty: nat) returns (ok: bool)
      requires Valid() && t.side.Sell? && Content().bids != [] && bestBid >= t.limit
      ensures ok <==> Available(Content().bids, t) >= qty
    {
      hide Wired, FreeChain, BookOk, Flat, HeadOf, LastOf, LevelsOk, Reach, Available, Total;
      WiredParts(Image(), pool.free, pool.inUse);
      assert |queues| == |levels[..]|;
      BestTick(queues, Buy);
      CountStart(queues, Buy, bestBid);
      var available: nat := 0;
      var p := bestBid;
      var more := true;
      while p >= 0 && p >= t.limit
        invariant -1 <= p <= bestBid
        invariant Available(Content().bids, t) == available + Available(Flat(queues, Buy, levels.Length - 1 - p), t)
        modifies {}
        decreases p
      {
        CountStep(queues, Buy, bestBid, p, t);
        more, available := CountLevel(p, t, available);
        if !more {
          break;
        }
        if available >= qty {
          return true;
        }
        p := p - 1;
      }
      if more {
        CountEnd(queues, Buy, levels.Length - 1 - p, t);
      }
      return available >= qty;
    }
  }
}
