/** The two browser books that keep their levels in hashes: one caches its best prices, one does not. */
module BrowserMaps {
  import opened Types
  import opened BookSpec
  import opened LadderSteps
  import opened MatchSteps
  import opened PriceMaps
  import opened RefOrderBooks
  import opened BrowserSteps

  /** The best key of a side, recomputed from all keys. */
  function BestOf(m: PriceMap, side: Side): Option<int> {
    if m == map[] then None else Some(BestKey(m, side))
  }

  /** What a best-price getter reports: null on an empty side. */
  ghost function BestShown(b: Book, side: Side): Option<int> {
    if b.On(side) == [] then None else Some(b.On(side)[0].price)
  }

  /** A key of the map that no other key beats, or nothing for a map without keys. */
  predicate IsBestKey(m: PriceMap, side: Side, best: Option<int>) {
    match best
    case None => m == map[]
    case Some(k) => k in m && forall j :: j in m ==> NotWorse(side, k, j)
  }

  /** There is one best key, and the scan finds it. */
  lemma BestOfIsBest(m: PriceMap, side: Side, best: Option<int>)
    ensures IsBestKey(m, side, best) <==> best == BestOf(m, side)
  {
    if m != map[] {
      assert BestKey(m, side) in m;
    }
  }

  lemma BestOfShown(d: Desk, side: Side)
    requires Sound(d)
    ensures BestOf(d.On(side), side) == BestShown(d.Content(), side)
  {
    LineTop(d.On(side), side);
  }

  /** The best key depends on the keys alone. */
  lemma SameKeysSameBest(m: PriceMap, w: PriceMap, side: Side)
    requires m.Keys == w.Keys
    ensures BestOf(m, side) == BestOf(w, side)
  {
    assert m == map[] <==> m.Keys == {};
    assert w == map[] <==> w.Keys == {};
    if m != map[] {
      var a, c := BestKey(m, side), BestKey(w, side);
      assert a in w && c in m;
    }
  }

  /** A new key is the best exactly when it beats the best so far. */
  lemma BestWithKey(m: PriceMap, side: Side, p: int, q: seq<Order>)
    ensures BestOf(m[p := q], side) ==
            match BestOf(m, side) case None => Some(p) case Some(k) => Some(if NotWorse(side, k, p) then k else p)
  {
    var w := m[p := q];
    var a := BestKey(w, side);
    if m == map[] {
      assert a == p;
    } else {
      var k := BestKey(m, side);
      assert k in w && p in w;
    }
  }

  /** Adds up one level, or nothing if there is none. */
  method LevelSize(m: PriceMap, ghost side: Side, p: int) returns (size: nat)
    requires MapOk(m, side)
    ensures size == SizeAt(Line(m, side), p)
  {
    hide Line, SizeAt;
    LineSize(m, side, p);
    size := 0;
    EmptyTotal();
    if p in m {
      var lv := m[p];
      for i := 0 to |lv|
        invariant size == Total(lv[..i])
      {
        TotalTake(lv, i);
        size := size + lv[i].remaining;
      }
      assert lv[..|lv|] == lv;
    }
  }

  /** Hash levels with the best bid and ask cached. */
  class OptimizedBook {
    var bids: PriceMap
    var asks: PriceMap
    var orders: map<nat, Info>
    var nextId: nat
    var prints: seq<Print>
    var bb: Option<int>
    var ba: Option<int>

    ghost function Image(): Desk
      reads this
    {
      Desk(bids, asks, orders, nextId)
    }

    /** The caches hold what a scan of all keys would find. */
    ghost predicate Cached()
      reads this
    {
      bb == BestOf(bids, Buy) && ba == BestOf(asks, Sell)
    }

    ghost predicate Valid()
      reads this
    {
      Sound(Image()) && Cached()
    }

    constructor ()
      ensures Valid() && Image() == CLOSED && prints == []
    {
      hide Sound;
      bids, asks, orders, nextId, prints, bb, ba := map[], map[], map[], 1, [], None, None;
      new;
      ClosedSound();
    }

    method BestBid() returns (p: Option<int>)
      requires Valid()
      ensures p == BestShown(Image().Content(), Buy)
    {
      BestOfShown(Image(), Buy);
      p := bb;
    }

    method BestAsk() returns (p: Option<int>)
      requires Valid()
      ensures p == BestShown(Image().Content(), Sell)
    {
      BestOfShown(Image(), Sell);
      p := ba;
    }

    method SizeOn(side: Side, p: int) returns (size: nat)
      requires Valid()
      ensures size == SizeAt(Image().Content().On(side), p)
    {
      hide Line, SizeAt;
      size := LevelSize(if side.Buy? then bids else asks, side, p);
    }

    method Orders() returns (n: nat)
      requires Valid()
      ensures n == Image().Content().Count()
    {
      OrderCount(Image());
      n := |orders|;
    }

    /** Scans the keys of one side again; the other side's cache stays. */
    method Recompute(side: Side)
      modifies this`bb, this`ba
      ensures side.Buy? ==> IsBestKey(bids, Buy, bb) && ba == old(ba)
      ensures side.Sell? ==> IsBestKey(asks, Sell, ba) && bb == old(bb)
    {
      if side.Buy? { bb := BestOf(bids, Buy); } else { ba := BestOf(asks, Sell); }
    }

    /** Trades with the best opposite level until it or the order is used up. */
    method Fill(price: int, rem: nat, agg: Side, ghost d: Desk, ghost limit: int, ghost qty: nat,
                ghost done: seq<Trade>)
      returns (left: nat, ghost more: seq<Trade>)
      requires rem > 0 && Cached() && Sweeping(d, Image(), agg, limit, qty, rem, done)
      requires BestOf(Image().On(agg.Opposite()), agg.Opposite()) == Some(price)
      requires Crosses(AskTaker(d.nextId, agg, limit), price)
      modifies this
      ensures left < rem && Cached() && Sweeping(d, Image(), agg, limit, qty, left, more)
      ensures old(prints) <= prints && Prints(more, agg) == Prints(done, agg) + prints[|old(prints)|..]
    {
      hide Sound, BookOk, MapOk, Line, OnCourse, MidFill, Prints, AtLevel;
      ghost var w := Image();
      var levels := if agg.Buy? then asks else bids;
      SweepAtBest(d, w, agg, limit, qty, rem, done);
      var lv, table, ps;
      lv, left, table, ps, more := FillLevel(levels[price], agg, rem, orders, AskTaker(d.nextId, agg, limit),
                                             Line(levels - {price}, agg.Opposite()), w.Content(),
                                             d.Content().On(agg.Opposite()), qty, done);
      orders := table;
      prints := prints + ps;
      levels := if lv == [] then levels - {price} else levels[price := lv];
      if lv != [] {
        SameKeysSameBest(w.On(agg.Opposite()), levels, agg.Opposite());
      }
      if agg.Buy? { asks := levels; } else { bids := levels; }
      SweepStep(d, w, agg, limit, qty, lv, table, left, more, Image());
      if lv == [] {
        Recompute(agg.Opposite());
        BestOfIsBest(levels, agg.Opposite(), if agg.Buy? then ba else bb);
      }
    }

    /** Pushes the remainder at the end of its level and lets it improve the cached best. */
    method RestAt(o: Order)
      requires Valid() && o.remaining > 0 && 0 <= o.price <= MAX_PRICE
      requires o.id < nextId && !Live(Image().Content(), o.id)
      requires !TopCrosses(Image().Content().On(o.side.Opposite()), Taker(o.id, o.side, o.price, o.owner))
      modifies this
      ensures Valid() && prints == old(prints) && nextId == old(nextId)
      ensures Image().Content() == Rest(old(Image()).Content(), o)
    {
      hide Sound, Line, BestOf, Live, TopCrosses, Rest;
      ghost var w := Image();
      var levels := if o.side.Buy? then bids else asks;
      BestWithKey(levels, o.side, o.price, At(levels, o.price) + [o]);
      levels := levels[o.price := At(levels, o.price) + [o]];
      if o.side.Buy? { bids := levels; } else { asks := levels; }
      orders := orders[o.id := InfoOf(o)];
      if o.side.Buy? && (bb.None? || o.price > bb.value) { bb := Some(o.price); }
      if o.side.Sell? && (ba.None? || o.price < ba.value) { ba := Some(o.price); }
      RestSound(w, o, Image());
    }

    method Submit(side: Side, p: int, qty: nat) returns (id: nat)
      requires Valid() && 0 <= p <= MAX_PRICE
      modifies this
      ensures Valid() && id == old(nextId) && old(prints) <= prints
      ensures Submitted(old(Image()), Image(), side, p, qty, prints[|old(prints)|..])
    {
      hide Sound, Sweeping, Submitted, Line, BestOf, Prints;
      ghost var d := Image();
      id := nextId;
      nextId := nextId + 1;
      var rem := qty;
      ghost var done: seq<Trade> := [];
      SweepStarts(d, side, p, qty);
      PrintsNone(side);
      while rem > 0
        invariant Cached() && Sweeping(d, Image(), side, p, qty, rem, done)
        invariant old(prints) <= prints && Prints(done, side) == prints[|old(prints)|..]
        decreases rem
      {
        var best := if side.Buy? then ba else bb;
        if best.None? || !Crosses(AskTaker(id, side, p), best.value) { break; }
        ghost var before := prints;
        rem, done := Fill(best.value, rem, side, d, p, qty, done);
        assert prints[|old(prints)|..] == before[|old(prints)|..] + prints[|before|..];
      }
      BestOfKey(Image(), side.Opposite());
      SweepOver(d, Image(), side, p, qty, rem, done);
      ghost var w := Image();
      SweepingSound(d, w, side, p, qty, rem, done);
      if rem > 0 {
        RestAt(Order(id, side, p, rem, 0, GTC, 0));
      }
      SubmitDone(d, w, Image(), side, p, qty, rem, done);
    }

    method Cancel(id: nat)
      requires Valid()
      modifies this
      ensures Valid() && Cancelled(old(Image()), Image(), id) && prints == old(prints)
    {
      hide Sound, Cancelled, Line, BestOf, Find;
      ghost var d := Image();
      if id !in orders {
        CancelMiss(d, id);
        return;
      }
      BrowserSteps.Locate(d, id);
      var o := orders[id];
      var levels := if o.side.Buy? then bids else asks;
      var lv := levels[o.price];
      lv := RemoveAt(lv, Find(lv, id));
      orders := orders - {id};
      if lv == [] {
        levels := levels - {o.price};
      } else {
        SameKeysSameBest(levels, levels[o.price := lv], o.side);
        levels := levels[o.price := lv];
      }
      if o.side.Buy? { bids := levels; } else { asks := levels; }
      CancelSound(d, id, Image());
      if lv == [] {
        Recompute(o.side);
        BestOfIsBest(levels, o.side, if o.side.Buy? then bb else ba);
      }
    }
  }

  lemma PrintsNone(side: Side)
    ensures Prints([], side) == []
  {
  }

  lemma SweepingSound(d: Desk, w: Desk, side: Side, price: int, qty: nat, rem: nat, done: seq<Trade>)
    requires Sweeping(d, w, side, price, qty, rem, done)
    ensures Sound(w) && w.nextId == d.nextId + 1
  {
  }

  lemma BestOfKey(d: Desk, side: Side)
    ensures var m := d.On(side);
      BestOf(m, side) == if m == map[] then None else Some(BestKey(m, side))
  {
  }

  /** Hash levels and nothing cached: the best prices are scanned for every time. */
  class NoCacheBook {
    var bids: PriceMap
    var asks: PriceMap
    var orders: map<nat, Info>
    var nextId: nat
    var prints: seq<Print>

    ghost function Image(): Desk
      reads this
    {
      Desk(bids, asks, orders, nextId)
    }

    ghost predicate Valid()
      reads this
    {
      Sound(Image())
    }

    constructor ()
      ensures Valid() && Image() == CLOSED && prints == []
    {
      hide Sound;
      bids, asks, orders, nextId, prints := map[], map[], map[], 1, [];
      new;
      ClosedSound();
    }

    method Best(side: Side) returns (p: Option<int>)
      requires Valid()
      ensures p == BestShown(Image().Content(), side) == BestOf(Image().On(side), side)
    {
      BestOfShown(Image(), side);
      p := BestOf(if side.Buy? then bids else asks, side);
    }

    method SizeOn(side: Side, p: int) returns (size: nat)
      requires Valid()
      ensures size == SizeAt(Image().Content().On(side), p)
    {
      hide Line, SizeAt;
      size := LevelSize(if side.Buy? then bids else asks, side, p);
    }

    method Orders() returns (n: nat)
      requires Valid()
      ensures n == Image().Content().Count()
    {
      OrderCount(Image());
      n := |orders|;
    }

    method Fill(price: int, rem: nat, agg: Side, ghost d: Desk, ghost limit: int, ghost qty: nat,
                ghost done: seq<Trade>)
      returns (left: nat, ghost more: seq<Trade>)
      requires rem > 0 && Sweeping(d, Image(), agg, limit, qty, rem, done)
      requires BestOf(Image().On(agg.Opposite()), agg.Opposite()) == Some(price)
      requires Crosses(AskTaker(d.nextId, agg, limit), price)
      modifies this
      ensures left < rem && Sweeping(d, Image(), agg, limit, qty, left, more)
      ensures old(prints) <= prints && Prints(more, agg) == Prints(done, agg) + prints[|old(prints)|..]
    {
      hide Sound, BookOk, MapOk, Line, OnCourse, MidFill, Prints, AtLevel;
      ghost var w := Image();
      var levels := if agg.Buy? then asks else bids;
      SweepAtBest(d, w, agg, limit, qty, rem, done);
      var lv, table, ps;
      lv, left, table, ps, more := FillLevel(levels[price], agg, rem, orders, AskTaker(d.nextId, agg, limit),
                                             Line(levels - {price}, agg.Opposite()), w.Content(),
                                             d.Content().On(agg.Opposite()), qty, done);
      orders := table;
      prints := prints + ps;
      levels := if lv == [] then levels - {price} else levels[price := lv];
      if agg.Buy? { asks := levels; } else { bids := levels; }
      SweepStep(d, w, agg, limit, qty, lv, table, left, more, Image());
    }

    method Submit(side: Side, p: int, qty: nat) returns (id: nat)
      requires Valid() && 0 <= p <= MAX_PRICE
      modifies this
      ensures Valid() && id == old(nextId) && old(prints) <= prints
      ensures Submitted(old(Image()), Image(), side, p, qty, prints[|old(prints)|..])
    {
      hide Sound, Sweeping, Submitted, Line, BestOf, Prints;
      ghost var d := Image();
      id := nextId;
      nextId := nextId + 1;
      var rem := qty;
      ghost var done: seq<Trade> := [];
      SweepStarts(d, side, p, qty);
      PrintsNone(side);
      while rem > 0
        invariant Sweeping(d, Image(), side, p, qty, rem, done)
        invariant old(prints) <= prints && Prints(done, side) == prints[|old(prints)|..]
        decreases rem
      {
        SweepingSound(d, Image(), side, p, qty, rem, done);
        var best := Best(side.Opposite());
        BestOfKey(Image(), side.Opposite());
        if best.None? || !Crosses(AskTaker(id, side, p), best.value) { break; }
        ghost var before := prints;
        rem, done := Fill(best.value, rem, side, d, p, qty, done);
        assert prints[|old(prints)|..] == before[|old(prints)|..] + prints[|before|..];
      }
      SweepOver(d, Image(), side, p, qty, rem, done);
      ghost var w := Image();
      SweepingSound(d, w, side, p, qty, rem, done);
      if rem > 0 {
        var levels := if side.Buy? then bids else asks;
        var o := Order(id, side, p, rem, 0, GTC, 0);
        levels := levels[p := At(levels, p) + [o]];
        if side.Buy? { bids := levels; } else { asks := levels; }
        orders := orders[id := InfoOf(o)];
        RestSound(w, o, Image());
      }
      SubmitDone(d, w, Image(), side, p, qty, rem, done);
    }

    method Cancel(id: nat)
      requires Valid()
      modifies this
      ensures Valid() && Cancelled(old(Image()), Image(), id) && prints == old(prints)
    {
      hide Sound, Cancelled, Line, Find;
      ghost var d := Image();
      if id !in orders {
        CancelMiss(d, id);
        return;
      }
      BrowserSteps.Locate(d, id);
      var o := orders[id];
      var levels := if o.side.Buy? then bids else asks;
      var lv := levels[o.price];
      lv := RemoveAt(lv, Find(lv, id));
      levels := if lv == [] then levels - {o.price} else levels[o.price := lv];
      if o.side.Buy? { bids := levels; } else { asks := levels; }
      orders := orders - {id};
      CancelSound(d, id, Image());
    }
  }
}
