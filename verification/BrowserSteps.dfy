/**
 What the four browser books share. Their orders have no owner and no type: each is a limit order
 with an id of the book's own making, and trades are reported without ids.
 */
module BrowserSteps {
  import opened Types
  import opened BookSpec
  import opened BookInvariants
  import opened MatchSteps
  import opened PriceMaps
  import opened RefOrderBooks

  datatype Print = Print(price: int, quantity: nat, aggressor: Side)

  function Prints(trades: seq<Trade>, side: Side): (w: seq<Print>)
    ensures |w| == |trades|
  {
    seq(|trades|, i requires 0 <= i < |trades| => Print(trades[i].price, trades[i].quantity, side))
  }

  /** The levels of both sides, the order table and the next id, whatever structure holds the levels. */
  datatype Desk = Desk(bids: PriceMap, asks: PriceMap, orders: map<nat, Info>, nextId: nat) {
    ghost function Content(): Book {
      Book(Line(bids, Buy), Line(asks, Sell))
    }

    function On(side: Side): PriceMap {
      if side.Buy? then bids else asks
    }

    function With(side: Side, m: PriceMap): Desk {
      if side.Buy? then this.(bids := m) else this.(asks := m)
    }
  }

  ghost predicate Sound(d: Desk) {
    && MapOk(d.bids, Buy) && MapOk(d.asks, Sell)
    && BookOk(d.Content()) && Positive(d.Content())
    && InfoOk(d.orders, d.Content())
    && forall id :: id in d.orders ==> id < d.nextId
  }

  const CLOSED := Desk(map[], map[], map[], 1)

  lemma ClosedSound()
    ensures Sound(CLOSED) && CLOSED.Content() == Book([], [])
  {
    hide Line, BookOk, Positive, MapOk, InfoOk;
    EmptyBook();
  }

  /** The browser's submit as a request to the reference book. */
  function Ask(id: nat, side: Side, price: int, qty: nat): Request {
    Request(id, side, Limit, price, qty, 0, GTC, 0)
  }

  function AskTaker(id: nat, side: Side, price: int): Taker {
    Taker(id, side, price, 0)
  }

  /** What a submit does to book and tape. */
  ghost predicate Submitted(d: Desk, w: Desk, side: Side, price: int, qty: nat, prints: seq<Print>) {
    var o := Submit(Reference, d.Content(), Ask(d.nextId, side, price, qty), 0);
    w.Content() == o.book && prints == Prints(o.trades, side) && w.nextId == d.nextId + 1
  }

  ghost predicate Cancelled(d: Desk, w: Desk, id: nat) {
    w.Content() == Cancel(d.Content(), id) && w.nextId == d.nextId
  }

  // ---------- filling one level ----------

  ghost predicate AtLevel(q: seq<Order>, side: Side, p: int) {
    forall i :: 0 <= i < |q| ==> q[i].price == p && q[i].side == side
  }

  /** Book and order table while the best level of `side` is `q` and the worse ones are `c`. */
  ghost predicate MidFill(b: Book, side: Side, q: seq<Order>, c: seq<Order>, orders: map<nat, Info>) {
    var w := b.With(side, q + c);
    BookOk(w) && Positive(w) && InfoOk(orders, w)
  }

  lemma MidFillStep(b: Book, side: Side, q: seq<Order>, c: seq<Order>, orders: map<nat, Info>, traded: nat)
    requires MidFill(b, side, q, c, orders) && q != [] && traded <= q[0].remaining
    ensures HeadTaken(q + c, traded) == HeadTaken(q, traded) + c
    ensures MidFill(b, side, HeadTaken(q, traded), c, if traded == q[0].remaining then orders - {q[0].id} else orders)
  {
    hide BookOk, Positive, InfoOk;
    var w := b.With(side, q + c);
    assert (q + c)[0] == q[0] && (q + c)[1..] == q[1..] + c;
    FillGood(orders, w, side, traded);
    assert HeadTaken(q + c, traded) == HeadTaken(q, traded) + c;
  }

  lemma MidFillHead(b: Book, side: Side, q: seq<Order>, c: seq<Order>, orders: map<nat, Info>)
    requires MidFill(b, side, q, c, orders) && q != []
    ensures q[0].remaining > 0
  {
    assert b.With(side, q + c).On(side)[0] == q[0];
  }

  /**
   The inner loop of every _fill: trade with the oldest order of one level until the level or the
   incoming order is used up. It always makes progress, because no level is ever empty.
   */
  method FillLevel(q0: seq<Order>, agg: Side, rem0: nat, orders0: map<nat, Info>, ghost t: Taker, ghost c: seq<Order>,
                   ghost b: Book, ghost all: seq<Order>, ghost qty: nat, ghost done0: seq<Trade>)
    returns (q: seq<Order>, rem: nat, orders: map<nat, Info>, prints: seq<Print>, ghost done: seq<Trade>)
    requires q0 != [] && rem0 > 0 && t.owner == 0 && t.side == agg
    requires AtLevel(q0, t.side.Opposite(), q0[0].price) && Crosses(t, q0[0].price)
    requires MidFill(b, t.side.Opposite(), q0, c, orders0)
    requires OnCourse(all, t, qty, 0, q0 + c, rem0, done0)
    ensures rem < rem0 && (rem == 0 || q == [])
    ensures AtLevel(q, t.side.Opposite(), q0[0].price)
    ensures MidFill(b, t.side.Opposite(), q, c, orders) && OnCourse(all, t, qty, 0, q + c, rem, done)
    ensures orders.Keys <= orders0.Keys
    ensures Prints(done, t.side) == Prints(done0, t.side) + prints
  {
    hide MidFill, OnCourse, HeadTaken;
    ghost var side := agg.Opposite();
    var p := q0[0].price;
    q, rem, orders, prints, done := q0, rem0, orders0, [], done0;
    while rem > 0 && |q| > 0
      invariant rem <= rem0 && (rem == rem0 ==> q == q0)
      invariant AtLevel(q, side, p) && MidFill(b, side, q, c, orders)
      invariant OnCourse(all, t, qty, 0, q + c, rem, done)
      invariant orders.Keys <= orders0.Keys
      invariant Prints(done, t.side) == Prints(done0, t.side) + prints
      decreases rem
    {
      var r := q[0];
      var traded := Min(rem, r.remaining);
      assert (q + c)[0] == r;
      MidFillHead(b, side, q, c, orders);
      MidFillStep(b, side, q, c, orders, traded);
      CourseStep(all, t, qty, 0, q + c, rem, done);
      HeadTakenCases(q, traded);
      PrintsSnoc(done, Trade(r.id, t.id, r.price, traded, |done|), t.side);
      done := done + [Trade(r.id, t.id, r.price, traded, |done|)];
      prints := prints + [Print(p, traded, agg)];
      rem := rem - traded;
      if traded == r.remaining {
        orders := orders - {r.id};
        q := q[1..];
      } else {
        q := q[0 := r.(remaining := r.remaining - traded)];
      }
    }
  }

  lemma PrintsSnoc(done: seq<Trade>, t: Trade, side: Side)
    ensures Prints(done + [t], side) == Prints(done, side) + [Print(t.price, t.quantity, side)]
  {
  }

  /** Storing the filled level back, or deleting it when nothing is left of it. */
  lemma PutBest(m: PriceMap, side: Side, q: seq<Order>)
    requires MapOk(m, side) && m != map[] && AtLevel(q, side, BestKey(m, side))
    ensures MapOk(Put(m, BestKey(m, side), q), side)
    ensures Line(Put(m, BestKey(m, side), q), side) == q + Line(m - {BestKey(m, side)}, side)
  {
    hide Line;
    var k := BestKey(m, side);
    PutOk(m, side, k, q);
    LineStart(m, side);
    BestLevel(m, side);
    var a, c := MapSplice(m, side, k, q);
    FrontIsBest(m, side, a, c);
    assert [] + m[k] + c == m[k] + c && [] + q + c == q + c;
    assert (m[k] + c)[|m[k]|..] == c;
    assert (m[k] + Line(m - {k}, side))[|m[k]|..] == Line(m - {k}, side);
  }

  lemma BestLevel(m: PriceMap, side: Side)
    requires MapOk(m, side) && m != map[]
    ensures var k := BestKey(m, side); m[k] != [] && m[k][0].price == k && AtLevel(m[k], side, k) && 0 <= k <= MAX_PRICE
  {
  }

  // ---------- the outer loop of submit ----------

  /** A submit in progress: `d` has been swept down to `w`, with `rem` to go and `done` printed. */
  ghost predicate Sweeping(d: Desk, w: Desk, side: Side, price: int, qty: nat, rem: nat, done: seq<Trade>) {
    && Sound(w) && w.nextId == d.nextId + 1 && w.orders.Keys <= d.orders.Keys
    && w.Content() == d.Content().With(side.Opposite(), w.Content().On(side.Opposite()))
    && OnCourse(d.Content().On(side.Opposite()), AskTaker(d.nextId, side, price), qty, 0,
                w.Content().On(side.Opposite()), rem, done)
  }

  lemma SweepStarts(d: Desk, side: Side, price: int, qty: nat)
    requires Sound(d)
    ensures Sweeping(d, d.(nextId := d.nextId + 1), side, price, qty, qty, [])
  {
    hide Line, BookOk, Positive, MapOk, InfoOk, OnCourse;
    CourseStarts(d.Content().On(side.Opposite()), AskTaker(d.nextId, side, price), qty, 0);
  }

  /** What FillLevel needs to know about the best level. */
  lemma SweepAtBest(d: Desk, w: Desk, side: Side, price: int, qty: nat, rem: nat, done: seq<Trade>)
    requires Sweeping(d, w, side, price, qty, rem, done) && w.On(side.Opposite()) != map[]
    ensures var opp := side.Opposite();
      var m := w.On(opp);
      var k := BestKey(m, opp);
      var c := Line(m - {k}, opp);
      && m[k] != [] && m[k][0].price == k && AtLevel(m[k], opp, k)
      && w.Content().On(opp) == m[k] + c
      && MidFill(w.Content(), opp, m[k], c, w.orders)
      && OnCourse(d.Content().On(opp), AskTaker(d.nextId, side, price), qty, 0, m[k] + c, rem, done)
  {
    hide Line, BookOk, Positive, InfoOk, OnCourse;
    var opp := side.Opposite();
    LineStart(w.On(opp), opp);
    BestLevel(w.On(opp), opp);
    assert w.Content().With(opp, w.Content().On(opp)) == w.Content();
  }

  /** After FillLevel the level is stored back and the submit is one level further. */
  lemma SweepStep(d: Desk, w: Desk, side: Side, price: int, qty: nat, q: seq<Order>, orders: map<nat, Info>, rem: nat,
                  done: seq<Trade>, x: Desk)
    requires Sound(w) && w.nextId == d.nextId + 1 && w.orders.Keys <= d.orders.Keys && orders.Keys <= w.orders.Keys
    requires w.Content() == d.Content().With(side.Opposite(), w.Content().On(side.Opposite()))
    requires w.On(side.Opposite()) != map[]
    requires var opp := side.Opposite();
      var k := BestKey(w.On(opp), opp);
      var c := Line(w.On(opp) - {k}, opp);
      && AtLevel(q, opp, k)
      && x == w.With(opp, Put(w.On(opp), k, q)).(orders := orders)
      && MidFill(w.Content(), opp, q, c, orders)
      && OnCourse(d.Content().On(opp), AskTaker(d.nextId, side, price), qty, 0, q + c, rem, done)
    ensures Sweeping(d, x, side, price, qty, rem, done)
  {
    hide Line, BookOk, Positive, InfoOk, OnCourse, MapOk;
    PutBest(w.On(side.Opposite()), side.Opposite(), q);
  }

  /** When the best level no longer crosses, or the order is used up, the sweep is over. */
  lemma SweepOver(d: Desk, w: Desk, side: Side, price: int, qty: nat, rem: nat, done: seq<Trade>)
    requires Sound(d) && Sweeping(d, w, side, price, qty, rem, done) && 0 <= price <= MAX_PRICE
    requires var m := w.On(side.Opposite());
      rem == 0 || m == map[] || !Crosses(AskTaker(d.nextId, side, price), BestKey(m, side.Opposite()))
    ensures var r := Ask(d.nextId, side, price, qty);
      && SweepOf(d.Content(), r, 0) == Swept(w.Content().On(side.Opposite()), rem, done)
      && w.Content() == AfterSweep(d.Content(), r, 0)
      && (rem > 0 <==> Rests(d.Content(), r, 0))
      && !Live(w.Content(), d.nextId)
      && (rem > 0 ==> !TopCrosses(w.Content().On(side.Opposite()), AskTaker(d.nextId, side, price)))
  {
    hide Line, BookOk, Positive, InfoOk, OnCourse, MapOk, Sweep, Live;
    var opp := side.Opposite();
    LineTop(w.On(opp), opp);
    CourseEnds(d.Content().On(opp), AskTaker(d.nextId, side, price), qty, 0, w.Content().On(opp), rem, done);
    InfoLookup(w.orders, w.Content(), d.nextId);
  }

  /** Resting the remainder at the end of its level. */
  lemma RestSound(w: Desk, o: Order, x: Desk)
    requires Sound(w) && o.remaining > 0 && 0 <= o.price <= MAX_PRICE && o.id < w.nextId && !Live(w.Content(), o.id)
    requires !TopCrosses(w.Content().On(o.side.Opposite()), Taker(o.id, o.side, o.price, o.owner))
    requires x == w.With(o.side, Put(w.On(o.side), o.price, At(w.On(o.side), o.price) + [o])).(orders := w.orders[o.id := InfoOf(o)])
    ensures Sound(x) && x.Content() == Rest(w.Content(), o)
  {
    hide Line, BookOk, Positive, InfoOk, MapOk, Live, Slot, TopCrosses;
    PushRests(w.On(o.side), o.side, o);
    RestGood(w.Content(), o);
    InfoInsert(w.orders, w.Content(), o);
  }

  lemma SubmitDone(d: Desk, w: Desk, x: Desk, side: Side, price: int, qty: nat, rem: nat, done: seq<Trade>)
    requires var r := Ask(d.nextId, side, price, qty);
      && SweepOf(d.Content(), r, 0) == Swept(w.Content().On(side.Opposite()), rem, done)
      && w.Content() == AfterSweep(d.Content(), r, 0)
      && (rem > 0 <==> Rests(d.Content(), r, 0))
      && x.Content() == (if rem > 0 then Rest(w.Content(), OrderOf(r, rem)) else w.Content())
    requires x.nextId == d.nextId + 1
    ensures Submitted(d, x, side, price, qty, Prints(done, side))
  {
    hide Rest;
  }

  // ---------- cancel ----------

  /** Where a live order sits. */
  lemma Locate(d: Desk, id: nat)
    requires Sound(d) && id in d.orders
    ensures var o := Lookup(d.Content(), id);
      var m := d.On(o.side);
      && Live(d.Content(), id) && o.id == id && d.orders[id] == InfoOf(o)
      && o.price in m && Find(m[o.price], id) < |m[o.price]| && m[o.price][Find(m[o.price], id)] == o
  {
    hide Line, BookOk, Positive, InfoOk, MapOk, Find, Lookup, Live;
    InfoLookup(d.orders, d.Content(), id);
    LookupId(d.Content(), id);
    var o := Lookup(d.Content(), id);
    FindInLevel(d.Content(), o.side, d.On(o.side), id);
  }

  lemma CancelSound(d: Desk, id: nat, x: Desk)
    requires Sound(d) && id in d.orders
    requires var info := d.orders[id];
      var m := d.On(info.side);
      && info.price in m && Find(m[info.price], id) < |m[info.price]|
      && x == d.With(info.side, Put(m, info.price, RemoveAt(m[info.price], Find(m[info.price], id)))).(orders := d.orders - {id})
    ensures Sound(x) && Cancelled(d, x, id)
  {
    hide Line, BookOk, Positive, InfoOk, MapOk, Find, Cancel;
    var info := d.orders[id];
    var m := d.On(info.side);
    var k := EraseAt(m, info.side, info.price, Find(m[info.price], id));
    CancelAt(d.Content(), info.side, k);
    CancelGood(d.Content(), id);
    InfoErase(d.orders, d.Content(), info.side, k);
  }

  lemma CancelMiss(d: Desk, id: nat)
    requires Sound(d) && id !in d.orders
    ensures Cancelled(d, d, id)
  {
    hide Line, BookOk, Positive, InfoOk, MapOk, Cancel;
    InfoLookup(d.orders, d.Content(), id);
    NothingToCancel(d.Content(), id);
  }

  /** The order table has one entry per resting order. */
  lemma OrderCount(d: Desk)
    requires Sound(d)
    ensures |d.orders| == d.Content().Count()
  {
    InfoCount(d.orders, d.Content());
  }
}
