/** The matching engine: price ladder, id index, trade numbering. */
module OrderBooks {
  import opened Types
  import opened BookSpec
  import opened SweepTheorems
  import opened BookInvariants
  import opened Pools
  import opened Ticks
  import opened Links
  import opened LadderSteps
  import opened Ladders
  import opened MatchSteps

  class OrderBook {
    const ladder: Ladder
    var idIndex: map<nat, Handle>
    var seqNo: nat
    /** What the trade sink has received. */
    var tape: seq<Trade>

    ghost function Content(): Book
      reads ladder
    {
      ladder.Content()
    }

    ghost function Repr(): set<object> {
      {this, ladder, ladder.levels, ladder.pool, ladder.pool.nodes}
    }

    /** The ladder is in order and the index lists exactly its occupied slots. */
    ghost predicate Indexed()
      reads this, ladder, ladder.levels, ladder.pool, ladder.pool.nodes
    {
      && ladder.Valid()
      && IndexOk(idIndex, ladder.Orders())
    }

    ghost predicate Valid()
      reads this, ladder, ladder.levels, ladder.pool, ladder.pool.nodes
    {
      Indexed() && Positive(Content())
    }

    constructor (tickRange: nat, maxOrders: nat)
      requires tickRange <= MAX_PRICE + 1 && maxOrders <= NULL
      ensures Valid() && fresh(Repr())
      ensures Content() == Book([], []) && seqNo == 0 && tape == []
      ensures ladder.levels.Length == tickRange && ladder.pool.nodes.Length == maxOrders && ladder.pool.policy.Lifo?
    {
      hide BookOk, Wired, FreeChain, View;
      ladder := new Ladder(Lifo, tickRange, maxOrders);
      idIndex, seqNo, tape := map[], 0, [];
    }

    // ---------- queries ----------

    method BestBid() returns (p: int)
      requires Valid()
      ensures p == BestPrice(Content().bids)
    {
      p := ladder.bestBid;
    }

    method BestAsk() returns (p: int)
      requires Valid()
      ensures p == BestPrice(Content().asks)
    {
      p := ladder.bestAsk;
    }

    method BidSizeAt(p: nat) returns (size: nat)
      requires Valid() && p < ladder.levels.Length
      ensures size == SizeAt(Content().bids, p)
    {
      size := ladder.SizeOn(Buy, p);
    }

    method AskSizeAt(p: nat) returns (size: nat)
      requires Valid() && p < ladder.levels.Length
      ensures size == SizeAt(Content().asks, p)
    {
      size := ladder.SizeOn(Sell, p);
    }

    method OpenOrders() returns (n: nat)
      requires Valid()
      ensures n == Content().Count()
    {
      n := ladder.pool.inUse;
    }

    // ---------- matching ----------

    /** Applies a trade to the oldest order of the best level, dropping the order when it is used up. */
    method Fill(h: Handle, ghost side: Side, traded: nat)
      requires Valid() && h in ladder.Orders()
      requires Content().On(side) != [] && ladder.Orders()[h] == Content().On(side)[0]
      requires traded <= ladder.Orders()[h].remaining
      modifies Repr()
      ensures Valid() && seqNo == old(seqNo) && tape == old(tape)
      ensures Content() == old(Content()).With(side, HeadTaken(old(Content()).On(side), traded))
    {
      hide BookOk, View, Wired, FreeChain, IndexOk, Resize, BookSpec.Cancel, Lookup, Live, BestPrice, OrdersIn;
      ghost var b := Content();
      var o := ladder.pool.nodes[h].value.order;
      LadderBookOk(ladder);
      HeadFilled(b, side, traded);
      HeadTakenPositive(b.On(side), traded);
      IndexResize(idIndex, ladder.Orders(), h, o.remaining - traded);
      ladder.SetRemaining(h, o.remaining - traded);
      if traded == o.remaining {
        IndexErase(idIndex, ladder.Orders(), h);
        ladder.UnlinkAndFree(h);
        idIndex := idIndex - {o.id};
      }
    }

    /** The sweep: trade with the head of the best opposite level until exhausted or stopped. */
    method Match(t: Taker, qty: nat) returns (remaining: nat, filled: nat)
      requires Valid()
      modifies Repr()
      ensures Valid()
      ensures var side := t.side.Opposite();
        var s := Sweep(old(Content()).On(side), t, qty, old(seqNo));
        && Content() == old(Content()).With(side, s.queue)
        && remaining == s.remaining && filled == qty - remaining
        && tape == old(tape) + s.trades && seqNo == old(seqNo) + |s.trades|
    {
      hide BookOk, View, Wired, FreeChain, IndexOk, Positive, OnCourse, Sweep, OrdersIn, BestPrice, HeadTaken,
           Ladder.Valid;
      remaining, filled := qty, 0;
      ghost var side := t.side.Opposite();
      ghost var q0 := Content().On(side);
      ghost var done: seq<Trade> := [];
      CourseStarts(q0, t, qty, seqNo);
      while remaining > 0
        invariant Valid()
        invariant Content() == old(Content()).With(side, Content().On(side))
        invariant remaining <= qty && filled == qty - remaining
        invariant tape == old(tape) + done && seqNo == old(seqNo) + |done|
        invariant OnCourse(q0, t, qty, old(seqNo), Content().On(side), remaining, done)
        decreases remaining
      {
        TopTells(ladder, t, side);
        if t.side.Buy? {
          if ladder.bestAsk < 0 || ladder.bestAsk > t.limit { break; }
        } else {
          if ladder.bestBid < 0 || ladder.bestBid < t.limit { break; }
        }
        var h := ladder.Top(t.side.Opposite());
        OrderInSlot(ladder, h);
        var resting := ladder.pool.nodes[h].value.order;
        if t.owner != 0 && t.owner == resting.owner { break; }
        var traded := if remaining < resting.remaining then remaining else resting.remaining;
        CourseStep(q0, t, qty, old(seqNo), Content().On(side), remaining, done);
        HeadPositive(Content(), side);
        done := done + [Trade(resting.id, t.id, resting.price, traded, seqNo)];
        tape := tape + [Trade(resting.id, t.id, resting.price, traded, seqNo)];
        seqNo := seqNo + 1;
        remaining := remaining - traded;
        filled := filled + traded;
        Fill(h, side, traded);
      }
      TopTells(ladder, t, side);
      CourseEnds(q0, t, qty, old(seqNo), Content().On(side), remaining, done);
    }

    /** Links a new order behind its level and indexes it; does nothing when no slot is free. */
    method RestOrder(o: Order)
      requires Valid() && o.remaining > 0
      requires 0 <= o.price < ladder.levels.Length && !Live(Content(), o.id)
      requires !TopCrosses(Content().On(o.side.Opposite()), Taker(o.id, o.side, o.price, o.owner))
      modifies Repr()
      ensures Valid() && seqNo == old(seqNo) && tape == old(tape)
      ensures Content() ==
              if old(Content()).Count() == ladder.pool.nodes.Length then old(Content()) else Rest(old(Content()), o)
    {
      hide BookOk, View, Wired, FreeChain, IndexOk, Live, BestPrice, OrdersIn, TopCrosses, Rest;
      LadderBookOk(ladder);
      IndexTellsLive(ladder.Image(), ladder.pool.free, ladder.pool.inUse, idIndex, o.id);
      ghost var b, orders := Content(), ladder.Orders();
      var h := ladder.Append(o);
      if h == NULL {
        return;
      }
      RestGood(b, o);
      IndexInsert(idIndex, orders, h, o);
      idIndex := idIndex[o.id := h];
    }

    // ---------- commands ----------

    method Submit(r: Request) returns (res: ExecResult)
      requires Valid() && LegalSubmit(Content(), r)
      requires r.kind.Limit? ==> r.price < ladder.levels.Length
      modifies Repr()
      ensures Valid()
      ensures var o := BookSpec.Submit(Pooled(ladder.pool.nodes.Length), old(Content()), r, old(seqNo));
        && Content() == o.book && res == o.result
        && tape == old(tape) + o.trades && seqNo == old(seqNo) + |o.trades|
    {
      hide BookOk, View, Wired, FreeChain, IndexOk, Live, BestPrice, OrdersIn, Rest, Sweep, Available, Positive;
      ghost var b := Content();
      LadderBookOk(ladder);
      LadderCount(ladder);
      res := ExecResult(r.id, 0, 0, false, false);
      if r.kind.Fok? {
        var ok := ladder.CanFill(TakerOf(r), r.qty);
        if !ok { return; }
      }
      var limitPrice := if r.kind.Market? then (if r.side.Buy? then ladder.levels.Length - 1 else 0) else r.price;
      var t := Taker(r.id, r.side, limitPrice, r.owner);
      WorstLimit(ladder, r.side.Opposite(), t, TakerOf(r), r.qty, seqNo);
      SweepGood(b, r, seqNo);
      var remaining, filled := Match(t, r.qty);
      res := ExecResult(r.id, filled, 0, true, remaining == 0);
      if remaining > 0 && r.kind.Limit? {
        BestsTell(ladder, r.side.Opposite());
        LadderCount(ladder);
        var wouldCross := (r.side.Buy? && ladder.bestAsk >= 0 && r.price >= ladder.bestAsk)
                       || (r.side.Sell? && ladder.bestBid >= 0 && r.price <= ladder.bestBid);
        if !wouldCross {
          RestOrder(OrderOf(r, remaining));
          res := res.(resting := remaining);
        }
      }
    }

    method Cancel(id: nat) returns (found: bool)
      requires Valid()
      modifies Repr()
      ensures Valid() && seqNo == old(seqNo) && tape == old(tape)
      ensures found == Live(old(Content()), id)
      ensures Content() == BookSpec.Cancel(old(Content()), id)
    {
      hide BookOk, View, Wired, FreeChain, IndexOk, Live, BestPrice, OrdersIn, Lookup, Positive;
      IndexTellsLive(ladder.Image(), ladder.pool.free, ladder.pool.inUse, idIndex, id);
      if id !in idIndex {
        return false;
      }
      Drop(id);
      return true;
    }

    /** Removes a live order, slot, level entry and index entry. */
    method Drop(id: nat)
      requires Valid() && id in idIndex
      modifies Repr()
      ensures Valid() && seqNo == old(seqNo) && tape == old(tape)
      ensures Content() == BookSpec.Cancel(old(Content()), id)
    {
      hide BookOk, View, Wired, FreeChain, IndexOk, BestPrice, OrdersIn, Lookup, Positive, Live, BookSpec.Cancel;
      LadderBookOk(ladder);
      IndexTellsLive(ladder.Image(), ladder.pool.free, ladder.pool.inUse, idIndex, id);
      LookupId(Content(), id);
      CancelGood(Content(), id);
      IndexErase(idIndex, ladder.Orders(), idIndex[id]);
      ladder.UnlinkAndFree(idIndex[id]);
      idIndex := idIndex - {id};
    }

    method Modify(id: nat, price: int, qty: nat) returns (res: ExecResult)
      requires Valid() && LegalModify(Content(), id, price, qty)
      requires Live(Content(), id) && qty > 0 ==> price < ladder.levels.Length
      modifies Repr()
      ensures Valid()
      ensures var o := BookSpec.Modify(Pooled(ladder.pool.nodes.Length), old(Content()), id, price, qty, old(seqNo));
        && Content() == o.book && res == o.result
        && tape == old(tape) + o.trades && seqNo == old(seqNo) + |o.trades|
    {
      hide BookOk, View, Wired, FreeChain, IndexOk, BestPrice, OrdersIn, Lookup, Positive, Live, BookSpec.Cancel,
           BookSpec.Submit, Resize;
      LadderBookOk(ladder);
      ghost var b := Content();
      IndexTellsLive(ladder.Image(), ladder.pool.free, ladder.pool.inUse, idIndex, id);
      if id !in idIndex {
        return NO_RESULT;
      }
      var h := idIndex[id];
      OrderInSlot(ladder, h);
      var o := ladder.pool.nodes[h].value.order;
      LookupId(b, id);
      CancelGood(b, id);
      if qty == 0 {
        Drop(id);
        return ExecResult(id, 0, 0, true, false);
      }
      if price == o.price && qty <= o.remaining {
        ResizeGood(b, id, qty);
        IndexResize(idIndex, ladder.Orders(), h, qty);
        ladder.SetRemaining(h, qty);
        return ExecResult(id, 0, qty, true, false);
      }
      Drop(id);
      res := Submit(Resubmission(o, price, qty));
    }
  }

  lemma LadderCount(l: Ladder)
    requires l.Valid()
    ensures l.Content().Count() <= l.pool.nodes.Length
  {
  }

  /** A market order's worst price on this ladder stops no sooner than an unlimited one. */
  lemma WorstLimit(l: Ladder, side: Side, t: Taker, u: Taker, qty: nat, n: nat)
    requires l.Valid() && t.id == u.id && t.side == u.side == side.Opposite() && t.owner == u.owner
    requires t == u || (t.limit == (if t.side.Buy? then l.levels.Length - 1 else 0)
                        && u.limit == (if t.side.Buy? then MAX_PRICE else MIN_PRICE))
    ensures Sweep(l.Content().On(side), t, qty, n) == Sweep(l.Content().On(side), u, qty, n)
  {
    hide Wired, BookOk, Sweep, Flat;
    WiredParts(l.Image(), l.pool.free, l.pool.inUse);
    PricesInRange(l.queues, side);
    SweepSameLimit(l.Content().On(side), t, u, qty, n);
  }

  lemma LadderBookOk(l: Ladder)
    requires l.Valid()
    ensures BookOk(l.Content()) && l.levels.Length <= MAX_PRICE + 1
  {
  }

  lemma OrderInSlot(l: Ladder, h: Handle)
    requires l.Valid() && h in l.Orders()
    ensures h < l.pool.nodes.Length && l.pool.nodes[h].Value? && l.pool.nodes[h].value.order == l.Orders()[h]
  {
  }

  /** The cached best price decides whether the head of the side is crossed. */
  lemma BestsTell(l: Ladder, side: Side)
    requires l.Valid()
    ensures var q, best := l.Content().On(side), if side.Sell? then l.bestAsk else l.bestBid;
      && best == BestPrice(q) && (best < 0 <==> q == []) && (q != [] ==> q[0].price == best)
  {
    hide Wired;
    WiredParts(l.Image(), l.pool.free, l.pool.inUse);
    BestTick(l.queues, side);
  }

  /** The loop's stop test on the cached best price is the cross test on the head of the side. */
  lemma TopTells(l: Ladder, t: Taker, side: Side)
    requires l.Valid() && side == t.side.Opposite()
    ensures TopCrosses(l.Content().On(side), t) <==>
            !(if t.side.Buy? then l.bestAsk < 0 || l.bestAsk > t.limit else l.bestBid < 0 || l.bestBid < t.limit)
  {
    hide Ladder.Valid;
    BestsTell(l, side);
  }
}
