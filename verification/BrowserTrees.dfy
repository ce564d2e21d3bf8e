/**
 The two browser books that keep their levels in arrays sorted by price: TreeBook searches them by
 bisection, NaiveBook extends it and walks them instead. The overrides are selected by a flag here.
 */
module BrowserTrees {
  import opened Types
  import opened BookSpec
  import opened BookInvariants
  import opened LadderSteps
  import opened MatchSteps
  import opened PriceMaps
  import opened RefOrderBooks
  import opened BrowserSteps
  import opened BrowserMaps

  datatype Level = Level(price: int, orders: seq<Order>)

  ghost predicate Ascending(ls: seq<Level>) {
    forall i, j :: 0 <= i < j < |ls| ==> ls[i].price < ls[j].price
  }

  /** The sorted array and the map hold the same levels. */
  ghost predicate Represents(ls: seq<Level>, m: PriceMap) {
    && Ascending(ls)
    && (forall i :: 0 <= i < |ls| ==> ls[i].price in m && m[ls[i].price] == ls[i].orders)
    && (forall p :: p in m ==> Listed(ls, p))
  }

  ghost predicate Listed(ls: seq<Level>, p: int) {
    exists i :: 0 <= i < |ls| && ls[i].price == p
  }

  /** `i` is where a level of price `p` is, or belongs. */
  ghost predicate LowerBound(ls: seq<Level>, p: int, i: nat) {
    && i <= |ls|
    && (forall j :: 0 <= j < i ==> ls[j].price < p)
    && (forall j :: i <= j < |ls| ==> ls[j].price >= p)
  }

  lemma FoundExactly(ls: seq<Level>, m: PriceMap, p: int, i: nat)
    requires Represents(ls, m) && LowerBound(ls, p, i)
    ensures i < |ls| && ls[i].price == p <==> p in m
    ensures i < |ls| && ls[i].price == p ==> m[p] == ls[i].orders
  {
    if p in m {
      assert Listed(ls, p);
      var j :| 0 <= j < |ls| && ls[j].price == p;
    }
  }

  lemma StoreLevel(ls: seq<Level>, m: PriceMap, i: nat, q: seq<Order>)
    requires Represents(ls, m) && i < |ls|
    ensures Represents(ls[i := Level(ls[i].price, q)], m[ls[i].price := q])
  {
    var p := ls[i].price;
    var w := ls[i := Level(p, q)];
    forall r | r in m[p := q]
      ensures Listed(w, r)
    {
      if r == p {
        assert w[i].price == r;
      } else {
        assert Listed(ls, r);
        var j :| 0 <= j < |ls| && ls[j].price == r;
        assert w[j].price == r;
      }
    }
  }

  lemma InsertAscending(ls: seq<Level>, i: nat, l: Level)
    requires Ascending(ls) && LowerBound(ls, l.price, i) && (i < |ls| ==> ls[i].price != l.price)
    ensures Ascending(InsertAt(ls, i, l))
  {
    var w := InsertAt(ls, i, l);
    InsertAtIndex(ls, i, l);
    forall a, c | 0 <= a < c < |w|
      ensures w[a].price < w[c].price
    {
      if a == i && c > i + 1 {
        assert ls[i].price < ls[c - 1].price;
      }
    }
  }

  lemma AddLevel(ls: seq<Level>, m: PriceMap, i: nat, p: int, q: seq<Order>)
    requires Represents(ls, m) && LowerBound(ls, p, i) && p !in m
    ensures Represents(InsertAt(ls, i, Level(p, q)), m[p := q])
  {
    hide Ascending, LowerBound;
    LowerBoundIn(ls, p, i);
    var w := InsertAt(ls, i, Level(p, q));
    InsertAtIndex(ls, i, Level(p, q));
    FoundExactly(ls, m, p, i);
    InsertAscending(ls, i, Level(p, q));
    forall j | 0 <= j < |w|
      ensures w[j].price in m[p := q] && m[p := q][w[j].price] == w[j].orders
    {
      if j != i {
        assert w[j] == ls[if j < i then j else j - 1];
      }
    }
    forall r | r in m[p := q]
      ensures Listed(w, r)
    {
      if r == p {
        assert w[i].price == r;
      } else {
        ListedAfterInsert(ls, i, Level(p, q), r);
      }
    }
  }

  lemma ListedAfterInsert(ls: seq<Level>, i: nat, l: Level, r: int)
    requires i <= |ls| && Listed(ls, r)
    ensures Listed(InsertAt(ls, i, l), r)
  {
    var w := InsertAt(ls, i, l);
    InsertAtIndex(ls, i, l);
    var j :| 0 <= j < |ls| && ls[j].price == r;
    assert w[if j < i then j else j + 1].price == r;
  }

  lemma RemoveAscending(ls: seq<Level>, i: nat)
    requires Ascending(ls) && i < |ls|
    ensures Ascending(RemoveAt(ls, i))
    ensures forall j :: 0 <= j < |RemoveAt(ls, i)| ==> RemoveAt(ls, i)[j].price != ls[i].price
  {
    RemoveAtIndex(ls, i);
  }

  lemma DropLevel(ls: seq<Level>, m: PriceMap, i: nat)
    requires Represents(ls, m) && i < |ls|
    ensures Represents(RemoveAt(ls, i), m - {ls[i].price})
  {
    hide Ascending;
    var p := ls[i].price;
    var w := RemoveAt(ls, i);
    RemoveAtIndex(ls, i);
    RemoveAscending(ls, i);
    forall j | 0 <= j < |w|
      ensures w[j].price in m - {p} && (m - {p})[w[j].price] == w[j].orders
    {
      assert w[j] == ls[if j < i then j else j + 1];
    }
    forall r | r in m - {p}
      ensures Listed(w, r)
    {
      assert Listed(ls, r);
      var j :| 0 <= j < |ls| && ls[j].price == r;
      assert w[if j < i then j else j - 1].price == r;
    }
  }

  /** The ends of the array are the best prices. */
  lemma EndsAreBest(ls: seq<Level>, m: PriceMap)
    requires Represents(ls, m)
    ensures ls == [] <==> m == map[]
    ensures ls != [] ==> BestKey(m, Buy) == ls[|ls| - 1].price && BestKey(m, Sell) == ls[0].price
  {
    if m != map[] {
      var top, low := BestKey(m, Buy), BestKey(m, Sell);
      assert Listed(ls, top) && Listed(ls, low);
      var i :| 0 <= i < |ls| && ls[i].price == top;
      var j :| 0 <= j < |ls| && ls[j].price == low;
    }
  }

  lemma LevelAtIndex(ls: seq<Level>, m: PriceMap, i: nat)
    requires Represents(ls, m) && i < |ls|
    ensures ls[i].price in m && m[ls[i].price] == ls[i].orders && LowerBound(ls, ls[i].price, i)
  {
  }

  lemma LevelsNotEmpty(ls: seq<Level>, m: PriceMap, side: Side)
    requires Represents(ls, m) && MapOk(m, side)
    ensures forall i :: 0 <= i < |ls| ==> ls[i].orders != []
  {
  }

  /** An order found in some level is the one the order table speaks of. */
  lemma TableKnows(d: Desk, side: Side, p: int, i: nat)
    requires Sound(d) && p in d.On(side) && i < |d.On(side)[p]|
    ensures var o := d.On(side)[p][i]; o.id in d.orders && d.orders[o.id] == InfoOf(o) && o.price == p && o.side == side
  {
    hide Line, BookOk, InfoOk;
    var k := LineHolds(d.On(side), side, p, i);
    InfoAt(d.orders, d.Content(), side, k);
  }

  /** Bisection for the first level not below a price. */
  method Bisect(ls: seq<Level>, p: int) returns (lo: nat)
    requires Ascending(ls)
    ensures LowerBound(ls, p, lo)
  {
    lo := 0;
    var hi := |ls|;
    while lo < hi
      invariant 0 <= lo <= hi <= |ls|
      invariant forall j :: 0 <= j < lo ==> ls[j].price < p
      invariant forall j :: hi <= j < |ls| ==> ls[j].price >= p
    {
      var m := (lo + hi) / 2;
      if ls[m].price < p {
        lo := m + 1;
      } else {
        hi := m;
      }
    }
  }

  /** The naive model's walk to a level it holds. */
  method IndexOf(ls: seq<Level>, l: Level) returns (i: nat)
    requires Ascending(ls) && l in ls
    ensures i < |ls| && ls[i] == l
    ensures forall j :: 0 <= j < |ls| && ls[j] == l ==> j == i
  {
    i := 0;
    while ls[i] != l
      invariant i < |ls| && forall j :: 0 <= j < i ==> ls[j] != l
      decreases |ls| - i
    {
      assert l in ls[i + 1..];
      i := i + 1;
    }
  }

  class TreeBook {
    /** Whether this is a NaiveBook. */
    const naive: bool
    var bl: seq<Level>
    var al: seq<Level>
    var orders: map<nat, Info>
    var nextId: nat
    var prints: seq<Print>
    /** The levels of each side as a map. */
    ghost var bids: PriceMap
    ghost var asks: PriceMap

    ghost function Image(): Desk
      reads this
    {
      Desk(bids, asks, orders, nextId)
    }

    ghost predicate Sorted()
      reads this
    {
      Represents(bl, bids) && Represents(al, asks)
    }

    ghost predicate Valid()
      reads this
    {
      Sound(Image()) && Sorted()
    }

    constructor (naive: bool)
      ensures Valid() && Image() == CLOSED && prints == [] && this.naive == naive
    {
      hide Sound, Represents, Desk.Content;
      this.naive := naive;
      bl, al, orders, nextId, prints := [], [], map[], 1, [];
      bids, asks := map[], map[];
      new;
      ClosedSound();
      NoLevels();
    }

    /** The last bid level; the naive book walks down to the first level with orders in it. */
    method BestBid() returns (p: Option<int>)
      requires Valid()
      ensures p == BestShown(Image().Content(), Buy) == BestOf(bids, Buy)
    {
      hide Sound, Represents, Line, MapOk;
      BestOfShown(Image(), Buy);
      SoundMaps(Image());
      EndsAreBest(bl, bids);
      if naive {
        var i := |bl| - 1;
        while i >= 0
          invariant -1 <= i < |bl| && forall k :: i < k < |bl| ==> bl[k].orders == []
        {
          if |bl[i].orders| > 0 {
            LevelsNotEmpty(bl, bids, Buy);
            return Some(bl[i].price);
          }
          i := i - 1;
        }
        LevelsNotEmpty(bl, bids, Buy);
        return None;
      }
      return if |bl| > 0 then Some(bl[|bl| - 1].price) else None;
    }

    method BestAsk() returns (p: Option<int>)
      requires Valid()
      ensures p == BestShown(Image().Content(), Sell) == BestOf(asks, Sell)
    {
      hide Sound, Represents, Line, MapOk;
      BestOfShown(Image(), Sell);
      SoundMaps(Image());
      EndsAreBest(al, asks);
      if naive {
        var i := 0;
        while i < |al|
          invariant 0 <= i <= |al| && forall k :: 0 <= k < i ==> al[k].orders == []
        {
          if |al[i].orders| > 0 {
            LevelsNotEmpty(al, asks, Sell);
            return Some(al[i].price);
          }
          i := i + 1;
        }
        LevelsNotEmpty(al, asks, Sell);
        return None;
      }
      return if |al| > 0 then Some(al[0].price) else None;
    }

    method SizeOn(side: Side, p: int) returns (size: nat)
      requires Valid()
      ensures size == SizeAt(Image().Content().On(side), p)
    {
      hide Line, SizeAt;
      var ls := if side.Buy? then bl else al;
      var i := Bisect(ls, p);
      ghost var m := Image().On(side);
      FoundExactly(ls, m, p, i);
      LineSize(m, side, p);
      EmptyTotal();
      size := 0;
      if i < |ls| && ls[i].price == p {
        var q := ls[i].orders;
        for k := 0 to |q|
          invariant size == Total(q[..k])
        {
          TotalTake(q, k);
          size := size + q[k].remaining;
        }
        assert q[..|q|] == q;
      }
    }

    method Orders() returns (n: nat)
      requires Valid()
      ensures n == Image().Content().Count()
    {
      OrderCount(Image());
      n := |orders|;
    }

    /** Replaces the array of one side, and the map it represents. */
    method SetSide(side: Side, ls: seq<Level>, ghost m: PriceMap)
      requires Represents(bl, bids) && Represents(al, asks) && Represents(ls, m)
      modifies this`bl, this`al, this`bids, this`asks
      ensures Sorted() && Image() == old(Image()).With(side, m)
    {
      if side.Buy? {
        bl := ls;
        bids := m;
      } else {
        al := ls;
        asks := m;
      }
    }

    method Fill(price: int, rem: nat, agg: Side, ghost d: Desk, ghost limit: int, ghost qty: nat,
                ghost done: seq<Trade>)
      returns (left: nat, ghost more: seq<Trade>)
      requires rem > 0 && Sorted() && Sweeping(d, Image(), agg, limit, qty, rem, done)
      requires BestOf(Image().On(agg.Opposite()), agg.Opposite()) == Some(price)
      requires Crosses(AskTaker(d.nextId, agg, limit), price)
      modifies this
      ensures left < rem && Sorted() && Sweeping(d, Image(), agg, limit, qty, left, more)
      ensures old(prints) <= prints && Prints(more, agg) == Prints(done, agg) + prints[|old(prints)|..]
    {
      hide Sound, BookOk, MapOk, Line, OnCourse, MidFill, Prints, AtLevel, Represents, LowerBound;
      ghost var w := Image();
      ghost var opp := agg.Opposite();
      ghost var m := w.On(opp);
      var ls := if agg.Buy? then al else bl;
      RepresentsSorted(ls, m);
      var i := Bisect(ls, price);
      FoundExactly(ls, m, price, i);
      SweepAtBest(d, w, agg, limit, qty, rem, done);
      var lv, table, ps;
      lv, left, table, ps, more := FillLevel(ls[i].orders, agg, rem, orders, AskTaker(d.nextId, agg, limit),
                                             Line(m - {price}, opp), w.Content(), d.Content().On(opp), qty, done);
      orders := table;
      prints := prints + ps;
      if lv == [] {
        DropLevel(ls, m, i);
        ls := RemoveAt(ls, i);
      } else {
        StoreLevel(ls, m, i, lv);
        ls := ls[i := Level(price, lv)];
      }
      SetSide(agg.Opposite(), ls, Put(m, price, lv));
      SweepStep(d, w, agg, limit, qty, lv, table, left, more, Image());
    }

    /** Gets or creates the level of a price and pushes the order at its end. */
    method RestAt(o: Order)
      requires Valid() && o.remaining > 0 && 0 <= o.price <= MAX_PRICE
      requires o.id < nextId && !Live(Image().Content(), o.id)
      requires !TopCrosses(Image().Content().On(o.side.Opposite()), Taker(o.id, o.side, o.price, o.owner))
      modifies this
      ensures Valid() && prints == old(prints) && nextId == old(nextId)
      ensures Image().Content() == Rest(old(Image()).Content(), o)
    {
      hide Sound, Line, Live, TopCrosses, Rest, Represents, LowerBound;
      ghost var w := Image();
      ghost var m := w.On(o.side);
      var ls := if o.side.Buy? then bl else al;
      RepresentsSorted(ls, m);
      var i := Bisect(ls, o.price);
      FoundExactly(ls, m, o.price, i);
      LowerBoundIn(ls, o.price, i);
      if i < |ls| && ls[i].price == o.price {
        StoreLevel(ls, m, i, ls[i].orders + [o]);
        ls := ls[i := Level(o.price, ls[i].orders + [o])];
      } else {
        AddLevel(ls, m, i, o.price, [] + [o]);
        ls := InsertAt(ls, i, Level(o.price, [] + [o]));
      }
      SetSide(o.side, ls, m[o.price := At(m, o.price) + [o]]);
      orders := orders[o.id := InfoOf(o)];
      RestSound(w, o, Image());
    }

    method Submit(side: Side, p: int, qty: nat) returns (id: nat)
      requires Valid() && 0 <= p <= MAX_PRICE
      modifies this
      ensures Valid() && id == old(nextId) && old(prints) <= prints
      ensures Submitted(old(Image()), Image(), side, p, qty, prints[|old(prints)|..])
    {
      hide Sound, Sweeping, Submitted, Line, BestOf, Prints, Represents;
      ghost var d := Image();
      id := nextId;
      nextId := nextId + 1;
      var rem := qty;
      ghost var done: seq<Trade> := [];
      SweepStarts(d, side, p, qty);
      PrintsNone(side);
      while rem > 0
        invariant Sorted() && Sweeping(d, Image(), side, p, qty, rem, done)
        invariant old(prints) <= prints && Prints(done, side) == prints[|old(prints)|..]
        decreases rem
      {
        SweepingSound(d, Image(), side, p, qty, rem, done);
        var best: Option<int>;
        if side.Buy? { best := BestAsk(); } else { best := BestBid(); }
        BestOfKey(Image(), side.Opposite());
        if best.None? || !Crosses(AskTaker(id, side, p), best.value) { break; }
        ghost var before := prints;
        rem, done := Fill(best.value, rem, side, d, p, qty, done);
        assert prints[|old(prints)|..] == before[|old(prints)|..] + prints[|before|..];
      }
      SweepOver(d, Image(), side, p, qty, rem, done);
      ghost var w := Image();
      SweepingSound(d, w, side, p, qty, rem, done);
      if rem > 0 {
        RestAt(Order(id, side, p, rem, 0, GTC, 0));
      }
      SubmitDone(d, w, Image(), side, p, qty, rem, done);
    }

    /** Splices an order out of a level, and the level out of its array when nothing is left. */
    method SpliceOut(id: nat, side: Side, i: nat, k: nat)
      requires Valid() && id in orders && orders[id].side == side
      requires var ls := if side.Buy? then bl else al;
        i < |ls| && ls[i].price == orders[id].price && k < |ls[i].orders| && k == Find(ls[i].orders, id)
      modifies this
      ensures Valid() && Cancelled(old(Image()), Image(), id) && prints == old(prints)
    {
      hide Sound, Cancelled, Line, Find, Represents, LowerBound;
      ghost var d := Image();
      ghost var m := d.On(side);
      var ls := if side.Buy? then bl else al;
      LevelAtIndex(ls, m, i);
      var lv := RemoveAt(ls[i].orders, k);
      if lv == [] {
        RepresentsSorted(ls, m);
        var li;
        if naive {
          li := IndexOf(ls, ls[i]);
        } else {
          li := Bisect(ls, ls[i].price);
          SameBound(ls, ls[i].price, i, li);
        }
        DropLevel(ls, m, li);
        ls := RemoveAt(ls, li);
      } else {
        StoreLevel(ls, m, i, lv);
        ls := ls[i := Level(ls[i].price, lv)];
      }
      SetSide(side, ls, Put(m, orders[id].price, lv));
      orders := orders - {id};
      CancelSound(d, id, Image());
    }

    method Cancel(id: nat)
      requires Valid()
      modifies this
      ensures Valid() && Cancelled(old(Image()), Image(), id) && prints == old(prints)
    {
      hide Sound, Cancelled, Line, Find, Represents, LowerBound;
      ghost var d := Image();
      if id !in orders {
        CancelMiss(d, id);
        return;
      }
      BrowserSteps.Locate(d, id);
      var o := orders[id];
      var ls := if o.side.Buy? then bl else al;
      ghost var m := d.On(o.side);
      if naive {
        WalkCancel(id, o.side);
        return;
      }
      RepresentsSorted(ls, m);
      var i := Bisect(ls, o.price);
      FoundExactly(ls, m, o.price, i);
      SpliceOut(id, o.side, i, Find(ls[i].orders, id));
    }

    /** The naive cancel: look through level after level for the id. */
    method WalkCancel(id: nat, side: Side)
      requires Valid() && id in orders && orders[id].side == side
      modifies this
      ensures Valid() && Cancelled(old(Image()), Image(), id) && prints == old(prints)
    {
      hide Sound, Cancelled, Line, Represents, LowerBound;
      ghost var d := Image();
      ghost var m := d.On(side);
      var ls := if side.Buy? then bl else al;
      BrowserSteps.Locate(d, id);
      ghost var home := IndexOfLevel(ls, m, orders[id].price);
      var i := 0;
      while i < |ls|
        invariant 0 <= i <= home < |ls| && Valid() && Image() == d && prints == old(prints)
        invariant ls == if side.Buy? then bl else al
      {
        var k := Find(ls[i].orders, id);
        LevelAtIndex(ls, m, i);
        if k < |ls[i].orders| {
          TableKnows(d, side, ls[i].price, k);
          SpliceOut(id, side, i, k);
          return;
        }
        i := i + 1;
      }
    }
  }

  lemma NoLevels()
    ensures Represents([], map[])
  {
  }

  lemma SoundMaps(d: Desk)
    requires Sound(d)
    ensures MapOk(d.bids, Buy) && MapOk(d.asks, Sell)
  {
  }

  lemma RepresentsSorted(ls: seq<Level>, m: PriceMap)
    requires Represents(ls, m)
    ensures Ascending(ls)
  {
  }

  lemma LowerBoundIn(ls: seq<Level>, p: int, i: nat)
    requires LowerBound(ls, p, i)
    ensures i <= |ls|
  {
  }

  lemma SameBound(ls: seq<Level>, p: int, i: nat, j: nat)
    requires LowerBound(ls, p, i) && LowerBound(ls, p, j)
    ensures i == j
  {
    var a, c := PriceAt(ls, i), PriceAt(ls, j);
    if i != j {
      assert false;
    }
  }

  function PriceAt(ls: seq<Level>, i: nat): int {
    if i < |ls| then ls[i].price else -1
  }

  lemma IndexOfLevel(ls: seq<Level>, m: PriceMap, p: int) returns (i: nat)
    requires Represents(ls, m) && p in m
    ensures i < |ls| && ls[i].price == p && ls[i].orders == m[p]
  {
    assert Listed(ls, p);
    i :| 0 <= i < |ls| && ls[i].price == p;
  }
}
