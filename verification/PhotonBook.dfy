/** The hardened engine: the same ladder over a FIFO pool, a flat hash index, a lifecycle stream, expiry. */
module PhotonBooks {
  import opened Types
  import opened BookSpec
  import opened SweepTheorems
  import opened BookInvariants
  import opened Pools
  import opened Ticks
  import opened Links
  import opened LadderSteps
  import opened Ladders
  import opened MatchSteps
  import opened OrderBooks
  import opened FlatTables
  import opened FlatMaps
  import opened PhotonSpec
  import opened Renumbering
  import opened Replays
  import opened Expiries
  import opened Stories
  import Maps

  class PhotonBook {
    const ladder: Ladder
    const index: FlatMap<Handle>
    var seqNo: nat
    /** What the sink has received. */
    var events: seq<BookUpdate>
    /** The min-heap of expiry times; which of several equal entries is on top is left open. */
    var expiryQueue: Heap

    ghost function Content(): Book
      reads ladder
    {
      ladder.Content()
    }

    ghost function Slots(): nat
    {
      ladder.pool.nodes.Length
    }

    ghost function Repr(): set<object> {
      {this, index, index.slots, ladder, ladder.levels, ladder.pool, ladder.pool.nodes}
    }

    /** Ladder and table are in order, and the table lists exactly the occupied slots. */
    ghost predicate Indexed()
      reads index, index.slots, ladder, ladder.levels, ladder.pool, ladder.pool.nodes
    {
      && ladder.Valid() && index.Valid()
      && IndexOk(index.content, ladder.Orders())
      && |index.content| == Content().Count()
      && index.slots.Length == CapacityFor(ladder.pool.nodes.Length)
    }

    /** The heap has an entry for every order that can expire. */
    ghost predicate Timed()
      reads this, ladder
    {
      HeapCovers(Content(), expiryQueue) && forall e :: e in expiryQueue ==> e.expiry > 0 && IsKey(e.id)
    }

    /** The events so far are numbered 0, 1, 2, ... and the next number follows. */
    ghost predicate Sequenced()
      reads this
    {
      Numbered(events, 0) && |events| == seqNo
    }

    ghost predicate Valid()
      reads this, index, index.slots, ladder, ladder.levels, ladder.pool, ladder.pool.nodes
    {
      Indexed() && Positive(Content()) && Timed() && Sequenced()
    }

    /** What an indexed book offers its parts. */
    lemma Inside()
      requires Indexed()
      ensures ladder.Valid() && index.Valid() && BookOk(Content()) && Content().Count() <= Slots()
    {
      hide Ladder.Valid;
      LadderBookOk(ladder);
      LadderCount(ladder);
    }

    lemma GoodBook()
      requires Valid()
      ensures Good(Content()) && |events| == seqNo
    {
      hide Ladder.Valid;
      Inside();
    }

    constructor (tickRange: nat, maxOrders: nat)
      requires tickRange <= MAX_PRICE + 1 && maxOrders <= NULL
      ensures Valid() && fresh(Repr())
      ensures Content() == Book([], []) && seqNo == 0 && events == [] && expiryQueue == multiset{}
      ensures ladder.levels.Length == tickRange && ladder.pool.nodes.Length == maxOrders && ladder.pool.policy.Fifo?
      ensures index.inserts == 0
    {
      hide BookOk, Wired, FreeChain, View, TableOk, EmptyCount;
      ladder := new Ladder(Fifo, tickRange, maxOrders);
      index := new FlatMap(maxOrders, 0);
      seqNo, events, expiryQueue := 0, [], multiset{};
    }

    // ---------- queries ----------

    method BestBid() returns (p: int)
      requires Valid()
      ensures p == BestPrice(Content().bids)
    {
      p := ladder.bestBid;
    }

    method BestAsk() returns (p: int)
      requires Valid()
      ensures p == BestPrice(Content().asks)
    {
      p := ladder.bestAsk;
    }

    method BidSizeAt(p: nat) returns (size: nat)
      requires Valid() && p < ladder.levels.Length
      ensures size == SizeAt(Content().bids, p)
    {
      size := ladder.SizeOn(Buy, p);
    }

    method AskSizeAt(p: nat) returns (size: nat)
      requires Valid() && p < ladder.levels.Length
      ensures size == SizeAt(Content().asks, p)
    {
      size := ladder.SizeOn(Sell, p);
    }

    method OpenOrders() returns (n: nat)
      requires Valid()
      ensures n == Content().Count()
    {
      n := ladder.pool.inUse;
    }

    // ---------- pieces ----------

    method Emit(kind: UpdateType, side: Side, id: nat, counter: nat, price: int, qty: nat, leaves: nat)
      modifies this`seqNo, this`events
      ensures events == old(events) + [BookUpdate(kind, side, id, counter, price, qty, leaves, old(seqNo))]
      ensures seqNo == old(seqNo) + 1
      ensures old(Sequenced()) ==> Sequenced()
    {
      events := events + [BookUpdate(kind, side, id, counter, price, qty, leaves, seqNo)];
      seqNo := seqNo + 1;
    }

    /** The table lists exactly the resting ids, and entries name proper keys. */
    lemma IndexTells(id: nat)
      requires Valid()
      ensures index.Valid() && (id in index.content <==> Live(Content(), id))
    {
      hide BookOk, View, Wired, FreeChain, IndexOk, Live, OrdersIn, TableOk, EmptyCount;
      IndexTellsLive(ladder.Image(), ladder.pool.free, ladder.pool.inUse, index.content, id);
    }

    lemma EntryIsKey(e: ExpiryEntry)
      requires Valid() && e in expiryQueue
      ensures IsKey(e.id)
    {
      hide Indexed;
    }

    /** Looks an id up in the index. */
    method Locate(id: nat) returns (h: Option<Handle>)
      requires Indexed() && IsKey(id) && (Live(Content(), id) || index.HasEmpty())
      ensures h.Some? <==> Live(Content(), id)
      ensures h.Some? ==> h.value in ladder.Orders() && ladder.Orders()[h.value] == Lookup(Content(), id)
      ensures h.Some? ==> id in index.content && index.content[id] == h.value
    {
      hide BookOk, View, Wired, FreeChain, IndexOk, Live, OrdersIn, Lookup, TableOk, EmptyCount;
      IndexTellsLive(ladder.Image(), ladder.pool.free, ladder.pool.inUse, index.content, id);
      h := index.Find(id);
    }

    /** Takes an order off its level and out of the index. */
    method Drop(id: nat, h: Handle)
      requires Indexed() && h in ladder.Orders() && ladder.Orders()[h].id == id
      modifies ladder.Repr(), index, index.slots
      ensures Indexed() && index.inserts == old(index.inserts)
      ensures Live(old(Content()), id) && Content() == BookSpec.Cancel(old(Content()), id)
      ensures old(index.HasEmpty()) ==> index.HasEmpty()
    {
      hide BookOk, View, Wired, FreeChain, IndexOk, Live, OrdersIn, Lookup, TableOk, EmptyCount, BestPrice,
           BookSpec.Cancel, Stored;
      LadderBookOk(ladder);
      IndexedKey(index.content, ladder.Orders(), h, index.slots[..], index.shift);
      IndexErase(index.content, ladder.Orders(), h);
      CancelGood(Content(), id);
      ladder.UnlinkAndFree(h);
      Maps.RemoveSize(index.content, id);
      var _ := index.Erase(id);
    }

    /** Applies a trade to the oldest order of the best level, dropping the order when it is used up. */
    method Bite(h: Handle, ghost side: Side, traded: nat)
      requires Indexed() && Positive(Content()) && h in ladder.Orders()
      requires Content().On(side) != [] && ladder.Orders()[h] == Content().On(side)[0]
      requires traded <= ladder.Orders()[h].remaining
      modifies ladder.Repr(), index, index.slots
      ensures Indexed() && Positive(Content()) && index.inserts == old(index.inserts)
      ensures Content() == old(Content()).With(side, HeadTaken(old(Content()).On(side), traded))
      ensures old(index.HasEmpty()) ==> index.HasEmpty()
    {
      hide BookOk, View, Wired, FreeChain, IndexOk, Resize, BookSpec.Cancel, Lookup, Live, BestPrice, OrdersIn,
           TableOk, EmptyCount, Stored, HeadTaken;
      ghost var b := Content();
      var o := ladder.pool.nodes[h].value.order;
      LadderBookOk(ladder);
      HeadFilled(b, side, traded);
      HeadTakenPositive(b.On(side), traded);
      HeadCount(b, side, o.remaining - traded);
      IndexResize(index.content, ladder.Orders(), h, o.remaining - traded);
      ladder.SetRemaining(h, o.remaining - traded);
      if traded == o.remaining {
        Drop(o.id, h);
      }
    }

    /** Reports one trade as a Fill and applies it. */
    method ApplyTrade(h: Handle, ghost side: Side, t: Taker, resting: Order, traded: nat, remaining: nat)
      requires Valid() && h in ladder.Orders() && ladder.Orders()[h] == resting
      requires Content().On(side) != [] && resting == Content().On(side)[0]
      requires traded <= resting.remaining && traded <= remaining
      modifies Repr()
      ensures Valid() && expiryQueue == old(expiryQueue) && index.inserts == old(index.inserts)
      ensures Content() == old(Content()).With(side, HeadTaken(old(Content()).On(side), traded))
      ensures Inherits(Content(), old(Content()))
      ensures seqNo == old(seqNo) + 1
      ensures events == old(events) +
        [BookUpdate(Fill, t.side, t.id, resting.id, resting.price, traded, remaining - traded, old(seqNo))]
      ensures old(index.HasEmpty()) ==> index.HasEmpty()
    {
      hide BookOk, View, Wired, FreeChain, IndexOk, Positive, OrdersIn, BestPrice, HeadTaken,
           Ladder.Valid, TableOk, EmptyCount, Stored, HeapCovers, Inherits, FlatMap.Valid;
      ghost var b := Content();
      HeadTakenInherits(b, side, traded);
      Emit(Fill, t.side, t.id, resting.id, resting.price, traded, remaining - traded);
      Bite(h, side, traded);
      InheritsHeap(Content(), b, expiryQueue);
    }

    /** The sweep, reporting each trade as a Fill before it is applied. */
    method Match(t: Taker, qty: nat) returns (remaining: nat, filled: nat)
      requires Valid()
      modifies Repr()
      ensures Valid() && expiryQueue == old(expiryQueue) && index.inserts == old(index.inserts)
      ensures var side := t.side.Opposite();
        var s := Sweep(old(Content()).On(side), t, qty, old(seqNo));
        && Content() == old(Content()).With(side, s.queue)
        && remaining == s.remaining && filled == qty - remaining
        && Traded(s.trades) <= qty && events == old(events) + FillEvents(t.side, s.trades, qty)
      ensures Inherits(Content(), old(Content()))
      ensures old(index.HasEmpty()) ==> index.HasEmpty()
    {
      hide BookOk, View, Wired, FreeChain, IndexOk, Positive, OnCourse, Sweep, OrdersIn, BestPrice, HeadTaken,
           Ladder.Valid, TableOk, EmptyCount, Stored, FillEvents, HeapCovers, Inherits, FlatMap.Valid, Indexed;
      remaining, filled := qty, 0;
      ghost var side := t.side.Opposite();
      ghost var q0 := Content().On(side);
      ghost var done: seq<Trade> := [];
      CourseStarts(q0, t, qty, seqNo);
      InheritsSelf(Content());
      NoFillEvents(t.side, qty);
      while remaining > 0
        invariant Valid() && expiryQueue == old(expiryQueue) && index.inserts == old(index.inserts)
        invariant Content() == old(Content()).With(side, Content().On(side))
        invariant remaining <= qty && filled == qty - remaining
        invariant Traded(done) == qty - remaining
        invariant events == old(events) + FillEvents(t.side, done, qty) && seqNo == old(seqNo) + |done|
        invariant OnCourse(q0, t, qty, old(seqNo), Content().On(side), remaining, done)
        invariant Inherits(Content(), old(Content()))
        invariant old(index.HasEmpty()) ==> index.HasEmpty()
        decreases remaining
      {
        Inside();
        TopTells(ladder, t, side);
        if t.side.Buy? {
          if ladder.bestAsk < 0 || ladder.bestAsk > t.limit { break; }
        } else {
          if ladder.bestBid < 0 || ladder.bestBid < t.limit { break; }
        }
        var h := ladder.Top(t.side.Opposite());
        OrderInSlot(ladder, h);
        var resting := ladder.pool.nodes[h].value.order;
        if t.owner != 0 && t.owner == resting.owner { break; }
        var traded := if remaining < resting.remaining then remaining else resting.remaining;
        CourseStep(q0, t, qty, old(seqNo), Content().On(side), remaining, done);
        HeadPositive(Content(), side);
        FillEventsSnoc(t.side, done, Trade(resting.id, t.id, resting.price, traded, seqNo), qty);
        done := done + [Trade(resting.id, t.id, resting.price, traded, seqNo)];
        ghost var b := Content();
        ApplyTrade(h, side, t, resting, traded, remaining);
        InheritsTransitive(Content(), b, old(Content()));
        remaining := remaining - traded;
        filled := filled + traded;
      }
      Inside();
      TopTells(ladder, t, side);
      CourseEnds(q0, t, qty, old(seqNo), Content().On(side), remaining, done);
    }

    /** Links and indexes a new order, and schedules its expiry; reports a rejection when no slot is free. */
    method RestOrder(o: Order)
      requires Valid() && o.remaining > 0 && IsKey(o.id)
      requires 0 <= o.price < ladder.levels.Length && !Live(Content(), o.id)
      requires !TopCrosses(Content().On(o.side.Opposite()), Taker(o.id, o.side, o.price, o.owner))
      modifies Repr()
      ensures Valid()
      ensures var b, full := old(Content()), old(Content()).Count() == Slots();
        && Content() == (if full then b else Rest(b, o))
        && expiryQueue == old(expiryQueue) + (if full then multiset{} else Pushed(o))
        && events == old(events) +
             (if full then [BookUpdate(Rejected, o.side, o.id, 0, o.price, o.remaining, 0, old(seqNo))] else [])
        && index.inserts == old(index.inserts) + if full then 0 else 1
    {
      hide BookOk, View, Wired, FreeChain, IndexOk, Live, BestPrice, OrdersIn, TopCrosses, Rest, TableOk, EmptyCount,
           HeapCovers, Stored, PathClear, NoKeyTwice, Pushed, Numbered;
      LadderBookOk(ladder);
      LadderCount(ladder);
      IndexTellsLive(ladder.Image(), ladder.pool.free, ladder.pool.inUse, index.content, o.id);
      ghost var b, orders, idx := Content(), ladder.Orders(), index.content;
      var h := ladder.Append(o);
      if h == NULL {
        Emit(Rejected, o.side, o.id, 0, o.price, o.remaining, 0);
        return;
      }
      RestGood(b, o);
      RestCovers(b, o, expiryQueue);
      IndexInsert(idx, orders, h, o);
      Maps.AddSize(idx, o.id, h);
      index.Insert(o.id, h);
      PushedEntry(o);
      if o.tif.GTD? && o.expiry > 0 {
        expiryQueue := expiryQueue + multiset{ExpiryEntry(o.expiry, o.id)};
      }
      assert expiryQueue == old(expiryQueue) + Pushed(o);
    }

    // ---------- commands ----------

    method Submit(r: Request) returns (res: ExecResult)
      requires Valid() && LegalSubmit(Content(), r)
      requires r.kind.Limit? ==> r.price < ladder.levels.Length && IsKey(r.id)
      modifies Repr()
      ensures Valid()
      ensures var o := BookSpec.Submit(Pooled(Slots()), old(Content()), r, old(seqNo));
        && Content() == o.book && res == o.result
        && events == old(events) + SubmitEvents(Slots(), old(Content()), r, old(seqNo))
      ensures expiryQueue == old(expiryQueue) + PushedBy(Slots(), old(Content()), r)
      ensures index.inserts == old(index.inserts) + NewlyRested(Slots(), old(Content()), Runs.Submission(r))
    {
      hide BookOk, View, Wired, FreeChain, IndexOk, Live, BestPrice, OrdersIn, Rest, Sweep, Available, Positive,
           TableOk, EmptyCount, HeapCovers, Stored, FillEvents, Inherits, Pushed, Indexed, Ladder.Valid, FlatMap.Valid,
           BookSpec.Submit, SubmitEvents, PushedBy, NewlyRested, RestEvents, TopCrosses;
      ghost var b := Content();
      Inside();
      SubmitOutline(Slots(), b, r, seqNo);
      res := ExecResult(r.id, 0, 0, false, false);
      if r.kind.Fok? {
        var ok := ladder.CanFill(TakerOf(r), r.qty);
        if !ok {
          Emit(Rejected, r.side, r.id, 0, r.price, r.qty, 0);
          return;
        }
      }
      var limitPrice := if r.kind.Market? then (if r.side.Buy? then ladder.levels.Length - 1 else 0) else r.price;
      var t := Taker(r.id, r.side, limitPrice, r.owner);
      WorstLimit(ladder, r.side.Opposite(), t, TakerOf(r), r.qty, seqNo);
      SweepGood(b, r, seqNo);
      SubmitNumbered(Slots(), b, r, seqNo);
      var remaining, filled := Match(t, r.qty);
      res := ExecResult(r.id, filled, 0, true, remaining == 0);
      if remaining > 0 && r.kind.Limit? {
        var rested := RestRemainder(r, remaining);
        if rested {
          res := res.(resting := remaining);
        }
      }
    }

    /** Rests the remainder of a limit order unless it would cross the book, and acknowledges it. */
    method RestRemainder(r: Request, remaining: nat) returns (rested: bool)
      requires Valid() && r.kind.Limit? && remaining > 0 && IsKey(r.id)
      requires 0 <= r.price < ladder.levels.Length && !Live(Content(), r.id)
      modifies Repr()
      ensures Valid()
      ensures rested == !TopCrosses(old(Content()).On(r.side.Opposite()), TakerOf(r))
      ensures var b, room, o := old(Content()), HasRoom(Pooled(Slots()), old(Content())), OrderOf(r, remaining);
        && Content() == (if rested && room then Rest(b, o) else b)
        && expiryQueue == old(expiryQueue) + (if rested && room then Pushed(o) else multiset{})
        && events == old(events) + (if rested then RestEvents(r, remaining, room, old(seqNo)) else [])
        && index.inserts == old(index.inserts) + if rested && room then 1 else 0
    {
      hide BookOk, View, Wired, FreeChain, IndexOk, Live, BestPrice, OrdersIn, Rest, Positive,
           TableOk, EmptyCount, HeapCovers, Stored, Pushed;
      BestsTell(ladder, r.side.Opposite());
      LadderCount(ladder);
      var wouldCross := (r.side.Buy? && ladder.bestAsk >= 0 && r.price >= ladder.bestAsk)
                     || (r.side.Sell? && ladder.bestBid >= 0 && r.price <= ladder.bestBid);
      rested := !wouldCross;
      if !wouldCross {
        RestOrder(OrderOf(r, remaining));
        Emit(Ack, r.side, r.id, 0, r.price, remaining, remaining);
      }
    }

    method Cancel(id: nat) returns (found: bool)
      requires Valid() && IsKey(id) && (Live(Content(), id) || index.HasEmpty())
      modifies Repr()
      ensures Valid() && expiryQueue == old(expiryQueue) && index.inserts == old(index.inserts)
      ensures found == Live(old(Content()), id) && Content() == BookSpec.Cancel(old(Content()), id)
      ensures events == old(events) + CancelEvents(old(Content()), id, old(seqNo))
      ensures old(index.HasEmpty()) ==> index.HasEmpty()
    {
      hide BookOk, View, Wired, FreeChain, IndexOk, Live, BestPrice, OrdersIn, Lookup, Positive,
           TableOk, EmptyCount, HeapCovers, Stored, Indexed, Ladder.Valid, FlatMap.Valid;
      Inside();
      var at := Locate(id);
      if at.None? {
        return false;
      }
      var h := at.value;
      OrderInSlot(ladder, h);
      LookupId(Content(), id);
      var o := ladder.pool.nodes[h].value.order;
      Emit(Canceled, o.side, id, 0, o.price, 0, 0);
      Remove(id, h);
      return true;
    }

    /** Drop, on a book in order. */
    method Remove(id: nat, h: Handle)
      requires Valid() && h in ladder.Orders() && ladder.Orders()[h].id == id
      modifies ladder.Repr(), index, index.slots
      ensures Valid() && index.inserts == old(index.inserts)
      ensures Live(old(Content()), id) && Content() == BookSpec.Cancel(old(Content()), id)
      ensures old(index.HasEmpty()) ==> index.HasEmpty()
    {
      hide BookOk, View, Wired, FreeChain, IndexOk, Live, BestPrice, OrdersIn, Lookup, Positive,
           TableOk, EmptyCount, HeapCovers, Stored, BookSpec.Cancel, Inherits;
      ghost var b := Content();
      LadderBookOk(ladder);
      CancelGood(b, id);
      CancelInherits(b, id);
      Drop(id, h);
      InheritsHeap(Content(), b, expiryQueue);
    }

    method Modify(id: nat, price: int, qty: nat) returns (res: ExecResult)
      requires Valid() && LegalModify(Content(), id, price, qty) && IsKey(id)
      requires Live(Content(), id) || index.HasEmpty()
      requires Live(Content(), id) && qty > 0 ==> price < ladder.levels.Length
      modifies Repr()
      ensures Valid()
      ensures var o := BookSpec.Modify(Pooled(Slots()), old(Content()), id, price, qty, old(seqNo));
        && Content() == o.book && res == o.result
        && events == old(events) + ModifyEvents(Slots(), old(Content()), id, price, qty, old(seqNo))
      ensures var c := Runs.Modification(id, price, qty);
        && expiryQueue == HeapAfter(Slots(), old(Content()), old(expiryQueue), c)
        && index.inserts == old(index.inserts) + NewlyRested(Slots(), old(Content()), c)
    {
      hide BookOk, View, Wired, FreeChain, IndexOk, BestPrice, OrdersIn, Lookup, Positive, Live, BookSpec.Cancel,
           BookSpec.Submit, Resize, TableOk, EmptyCount, HeapCovers, Stored, SubmitEvents, PushedBy, Inherits, ComesToRest,
           Indexed, Ladder.Valid, FlatMap.Valid;
      Inside();
      ghost var b := Content();
      var at := Locate(id);
      if at.None? {
        return NO_RESULT;
      }
      var h := at.value;
      OrderInSlot(ladder, h);
      var o := ladder.pool.nodes[h].value.order;
      LookupId(b, id);
      CancelGood(b, id);
      if qty == 0 {
        Emit(Canceled, o.side, id, 0, o.price, 0, 0);
        Remove(id, h);
        return ExecResult(id, 0, 0, true, false);
      }
      if price == o.price && qty <= o.remaining {
        Shrink(id, h, qty);
        Emit(Replaced, o.side, id, 0, price, qty, qty);
        return ExecResult(id, 0, qty, true, false);
      }
      Remove(id, h);
      res := Submit(Resubmission(o, price, qty));
    }

    method Shrink(id: nat, h: Handle, qty: nat)
      requires Valid() && h in ladder.Orders() && ladder.Orders()[h].id == id
      requires 0 < qty <= ladder.Orders()[h].remaining
      modifies ladder.Repr()
      ensures Valid() && Live(old(Content()), id) && Content() == Resize(old(Content()), id, qty)
    {
      hide BookOk, View, Wired, FreeChain, IndexOk, BestPrice, OrdersIn, Lookup, Positive, Live, Resize,
           TableOk, EmptyCount, HeapCovers, Stored, Inherits;
      LadderBookOk(ladder);
      ghost var b := Content();
      SlotIsLive(ladder.Image(), ladder.pool.free, ladder.pool.inUse, h);
      ResizeGood(b, id, qty);
      ResizeBests(b, id, qty);
      ResizeInherits(b, id, qty);
      IndexResize(index.content, ladder.Orders(), h, qty);
      ladder.SetRemaining(h, qty);
      InheritsHeap(Content(), b, expiryQueue);
    }

    // ---------- expiry ----------

    /**
     Pops every due entry off the heap and removes the order it names, if that still rests. The orders
     removed are exactly the due ones, unless an id was used again while an entry of its earlier use was left.
     An absent id is looked up only for a due entry whose order is gone.
     */
    method CheckExpiry(now: nat) returns (ghost gone: seq<nat>)
      requires Valid() && (index.HasEmpty() || AllHit(Content(), expiryQueue, now))
      modifies Repr()
      ensures Valid() && index.inserts == old(index.inserts) && (old(index.HasEmpty()) ==> index.HasEmpty())
      ensures Content() == ExpireAll(old(Content()), gone)
      ensures events == old(events) + ExpireEvents(old(Content()), gone, old(seqNo))
      ensures IdSet(gone) == DueIds(old(expiryQueue), now)
      ensures Content() == KeepBook(old(Content()), DueIds(old(expiryQueue), now))
      ensures expiryQueue == Later(old(expiryQueue), now)
      ensures ExpiresAsTold(Slots(), ladder.levels.Length, old(Stand(Content(), expiryQueue)), Content(), now)
    {
      hide *;
      gone := [];
      ghost var b := Content();
      GoodBook();
      ExpireNothing(b, seqNo);
      PopsStart(expiryQueue, now);
      while expiryQueue != multiset{}
        invariant Valid() && index.inserts == old(index.inserts)
        invariant old(index.HasEmpty()) ==> index.HasEmpty()
        invariant index.HasEmpty() || AllHit(Content(), expiryQueue, now)
        invariant Content() == ExpireAll(b, gone)
        invariant events == old(events) + ExpireEvents(b, gone, old(seqNo))
        invariant PoppedSoFar(old(expiryQueue), expiryQueue, gone, now)
        decreases |expiryQueue|
      {
        GoodBook();
        var top := Earliest();
        if top.expiry > now {
          break;
        }
        PopOne(old(expiryQueue), expiryQueue, gone, now, top);
        ExpireSnoc(b, gone, top.id, old(seqNo));
        gone := gone + [top.id];
        AllHitPop(Content(), expiryQueue, now, top);
        ExpireTop(top);
      }
      PopsDone(old(expiryQueue), expiryQueue, gone, now);
      assert expiryQueue == Later(old(expiryQueue), now);
      ExpireKeeps(b, gone);
      ToldByEveryPast(Slots(), ladder.levels.Length, Stand(b, old(expiryQueue)), now);
    }

    /** The top of the heap; of several entries with the least time it may be any. */
    method Earliest() returns (top: ExpiryEntry)
      requires expiryQueue != multiset{}
      ensures top in expiryQueue && forall e :: e in expiryQueue ==> top.expiry <= e.expiry
    {
      ghost var least := HeapMin(expiryQueue);
      top :| top in expiryQueue && forall e :: e in expiryQueue ==> top.expiry <= e.expiry;
    }

    /** Removes one entry from the heap and the order it names from the book. */
    method ExpireTop(top: ExpiryEntry)
      requires Valid() && top in expiryQueue && (Live(Content(), top.id) || index.HasEmpty())
      modifies Repr()
      ensures Valid() && index.inserts == old(index.inserts) && (old(index.HasEmpty()) ==> index.HasEmpty())
      ensures expiryQueue == old(expiryQueue) - multiset{top}
      ensures Content() == BookSpec.Cancel(old(Content()), top.id)
      ensures events == old(events) +
        if Live(old(Content()), top.id) then [ExpireEvent(Lookup(old(Content()), top.id), old(seqNo))] else []
    {
      hide BookOk, Indexed, HeapCovers, BookSpec.Cancel, Live, Lookup, Positive, IsKey, FlatMap.HasEmpty, ExpireEvent;
      EntryIsKey(top);
      GoodBook();
      CancelGood(Content(), top.id);
      Expire(top.id);
      PopCovers(Content(), expiryQueue, top);
      expiryQueue := expiryQueue - multiset{top};
    }

    /** Removes the order with this id, if it still rests, and reports its expiry. */
    method Expire(id: nat)
      requires Valid() && IsKey(id) && (Live(Content(), id) || index.HasEmpty())
      modifies Repr()
      ensures Valid() && expiryQueue == old(expiryQueue)
      ensures index.inserts == old(index.inserts) && (old(index.HasEmpty()) ==> index.HasEmpty())
      ensures Content() == BookSpec.Cancel(old(Content()), id)
      ensures events == old(events) +
        if Live(old(Content()), id) then [ExpireEvent(Lookup(old(Content()), id), old(seqNo))] else []
    {
      hide BookOk, View, Wired, FreeChain, IndexOk, BestPrice, OrdersIn, Lookup, Positive, Live, BookSpec.Cancel,
           TableOk, EmptyCount, HeapCovers, Stored, Inherits, Indexed, Ladder.Valid, FlatMap.Valid, FlatMap.HasEmpty;
      Inside();
      var at := Locate(id);
      if at.None? {
        NothingToCancel(Content(), id);
        return;
      }
      var h := at.value;
      OrderInSlot(ladder, h);
      LookupId(Content(), id);
      var o := ladder.pool.nodes[h].value.order;
      Emit(Expired, o.side, id, 0, o.price, o.remaining, 0);
      Remove(id, h);
    }
  }

  /** An occupied slot's id is a proper key, stored in the table. */
  lemma IndexedKey(idx: map<nat, Handle>, orders: map<Handle, Order>, h: Handle, t: Table<Handle>, shift: nat)
    requires IndexOk(idx, orders) && h in orders && TableOk(t, shift, idx)
    ensures orders[h].id in idx && IsKey(orders[h].id)
  {
  }

  lemma HeadCount(b: Book, side: Side, qty: nat)
    requires BookOk(b) && b.On(side) != []
    ensures Live(b, b.On(side)[0].id) && Resize(b, b.On(side)[0].id, qty).Count() == b.Count()
  {
    hide BookOk;
    LiveAt(b, side, 0);
  }

  lemma NoFillEvents(side: Side, qty: nat)
    ensures FillEvents(side, [], qty) == []
  {
  }

  lemma {:induction false} FillEventsSnoc(side: Side, done: seq<Trade>, t: Trade, qty: nat)
    requires Traded(done) + t.quantity <= qty
    ensures Traded(done + [t]) == Traded(done) + t.quantity
    ensures FillEvents(side, done + [t], qty) == FillEvents(side, done, qty) +
      [BookUpdate(Fill, side, t.incomingId, t.restingId, t.price, t.quantity, qty - Traded(done) - t.quantity, t.seqNo)]
  {
    if done == [] {
      assert [] + [t] == [t] && [t][1..] == [];
    } else {
      FillEventsSnoc(side, done[1..], t, qty - done[0].quantity);
      assert (done + [t])[1..] == done[1..] + [t] && (done + [t])[0] == done[0];
    }
  }
}
