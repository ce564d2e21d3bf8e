/** What one operation guarantees: engine agreement, self-trade prevention, modify, conservation. */
module BookTheorems {
  import opened Types
  import opened BookSpec
  import opened SweepTheorems
  import opened BookInvariants

  // ---------- the two engines ----------

  /** A fill-or-kill of size zero that meets no crossing price: only the pooled engine rejects it. */
  predicate ZeroFok(b: Book, r: Request) {
    r.kind.Fok? && r.qty == 0 && !TopCrosses(b.On(r.side.Opposite()), TakerOf(r))
  }

  /** A limit order that must rest while every slot is taken: the pooled engine silently drops it. */
  predicate NoSlot(b: Book, slots: nat, r: Request) {
    r.kind.Limit? && r.qty > 0 && b.Count() >= slots && !TopCrosses(b.On(r.side.Opposite()), TakerOf(r))
  }

  lemma SweepFreesSlot(b: Book, r: Request, n: nat)
    requires Good(b)
    requires SweepOf(b, r, n).remaining > 0 && !TopCrosses(SweepOf(b, r, n).queue, TakerOf(r))
    requires TopCrosses(b.On(r.side.Opposite()), TakerOf(r))
    ensures AfterSweep(b, r, n).Count() < b.Count()
  {
    SweepKeeps(b.On(r.side.Opposite()), TakerOf(r), r.qty, n);
  }

  lemma NoTopNoSweep(q: seq<Order>, t: Taker, rem: nat, n: nat)
    requires !TopCrosses(q, t)
    ensures Sweep(q, t, rem, n) == Swept(q, rem, [])
  {
  }

  /** The dropped order is the one the full pool has no slot for, and no other. */
  lemma DropsExactly(b: Book, slots: nat, r: Request, n: nat)
    requires Good(b) && b.Count() <= slots
    ensures Rests(b, r, n) && !HasRoom(Pooled(slots), AfterSweep(b, r, n)) <==> NoSlot(b, slots, r)
  {
    var q := b.On(r.side.Opposite());
    if TopCrosses(q, TakerOf(r)) {
      if Rests(b, r, n) {
        SweepFreesSlot(b, r, n);
      }
    } else {
      NoTopNoSweep(q, TakerOf(r), r.qty, n);
      assert b.With(r.side.Opposite(), q) == b;
    }
  }

  /** The pooled book answers a submit as the reference book does, except in exactly two corners. */
  lemma SubmitAgrees(b: Book, slots: nat, r: Request, n: nat)
    requires Good(b) && LegalSubmit(b, r) && b.Count() <= slots
    ensures Submit(Pooled(slots), b, r, n) == Submit(Reference, b, r, n) <==> !ZeroFok(b, r) && !NoSlot(b, slots, r)
  {
    DropsExactly(b, slots, r, n);
    FokPreChecksAgree(slots, b.On(r.side.Opposite()), TakerOf(r), r.qty);
    if NoSlot(b, slots, r) {
      var b1 := AfterSweep(b, r, n);
      SweepGood(b, r, n);
      RestGood(b1, OrderOf(r, SweepOf(b, r, n).remaining));
    }
  }

  /** A dropped order goes unreported: result and trades are those of the reference book. */
  lemma DropIsSilent(b: Book, slots: nat, r: Request, n: nat)
    requires Good(b) && LegalSubmit(b, r) && b.Count() <= slots && NoSlot(b, slots, r)
    ensures var p := Submit(Pooled(slots), b, r, n);
            p.book == b && p.result.resting == r.qty && p == Submit(Reference, b, r, n).(book := b)
  {
    DropsExactly(b, slots, r, n);
    NoTopNoSweep(b.On(r.side.Opposite()), TakerOf(r), r.qty, n);
    assert b.With(r.side.Opposite(), b.On(r.side.Opposite())) == b;
  }

  /** Modify frees the slot it needs, so the engines agree on it whatever the occupancy. */
  lemma ModifyAgrees(b: Book, slots: nat, id: nat, price: int, qty: nat, n: nat)
    requires Good(b) && LegalModify(b, id, price, qty) && b.Count() <= slots
    ensures Modify(Pooled(slots), b, id, price, qty, n) == Modify(Reference, b, id, price, qty, n)
  {
    if Live(b, id) && qty > 0 && !ShrinksInPlace(Lookup(b, id), price, qty) {
      CancelGood(b, id);
      SubmitAgrees(Cancel(b, id), slots, Resubmission(Lookup(b, id), price, qty), n);
    }
  }

  lemma SubmitCount(b: Book, slots: nat, r: Request, n: nat)
    requires Good(b) && LegalSubmit(b, r) && b.Count() <= slots
    ensures Submit(Pooled(slots), b, r, n).book.Count() <= slots
  {
    SweepGood(b, r, n);
    if Rests(b, r, n) {
      RestGood(AfterSweep(b, r, n), OrderOf(r, SweepOf(b, r, n).remaining));
    }
  }

  lemma ModifyCount(b: Book, slots: nat, id: nat, price: int, qty: nat, n: nat)
    requires Good(b) && LegalModify(b, id, price, qty) && b.Count() <= slots
    ensures Modify(Pooled(slots), b, id, price, qty, n).book.Count() <= slots
  {
    CancelGood(b, id);
    if Live(b, id) && qty > 0 && !ShrinksInPlace(Lookup(b, id), price, qty) {
      SubmitCount(Cancel(b, id), slots, Resubmission(Lookup(b, id), price, qty), n);
    }
  }

  // ---------- fill or kill ----------

  /** A fill-or-kill order of positive size trades in full or leaves the book untouched. */
  lemma FillOrKill(e: Engine, b: Book, r: Request, n: nat)
    requires Good(b) && r.kind.Fok? && r.qty > 0
    ensures var o := Submit(e, b, r, n);
      if Available(b.On(r.side.Opposite()), TakerOf(r)) >= r.qty
      then o.result == ExecResult(r.id, r.qty, 0, true, true) && Traded(o.trades) == r.qty
      else o.book == b && o.trades == [] && o.result == ExecResult(r.id, 0, 0, false, false)
  {
    FokExact(e, b.On(r.side.Opposite()), TakerOf(r), r.qty, n);
    FokExact(Reference, b.On(r.side.Opposite()), TakerOf(r), r.qty, n);
    SweepFills(b.On(r.side.Opposite()), TakerOf(r), r.qty, n);
  }

  // ---------- what a submit reports ----------

  /** Behind everything the taker can reach stands a crossing order of its own owner. */
  predicate OwnOrderInTheWay(q: seq<Order>, t: Taker) {
    Reach(q, t) < |q| && Crosses(t, q[Reach(q, t)].price)
  }

  lemma {:induction false} SweptBeyondReach(q: seq<Order>, t: Taker, rem: nat, n: nat)
    requires Sweep(q, t, rem, n).remaining > 0
    ensures Sweep(q, t, rem, n).queue == q[Reach(q, t)..]
  {
    if q != [] && CanTrade(t, q[0]) && rem >= q[0].remaining {
      SweptBeyondReach(q[1..], t, rem - q[0].remaining, n + 1);
      assert q[1..][Reach(q[1..], t)..] == q[Reach(q, t)..];
    }
  }

  /**
   Limit, market and IOC orders are always accepted and fill all they can reach up to their size. A
   limit order rests the remainder, unless an order of its own owner is in the way; the others never do.
   */
  lemma SubmitReports(e: Engine, b: Book, r: Request, n: nat)
    requires Good(b) && !r.kind.Fok?
    ensures var q, t := b.On(r.side.Opposite()), TakerOf(r);
      var filled := Min(r.qty, Available(q, t));
      Submit(e, b, r, n).result ==
        ExecResult(r.id, filled,
                   if r.kind.Limit? && !OwnOrderInTheWay(q, t) then r.qty - filled else 0,
                   true, filled == r.qty)
  {
    hide BookOk, Sweep, Available;
    var q, t := b.On(r.side.Opposite()), TakerOf(r);
    SweepFills(q, t, r.qty, n);
    if SweepOf(b, r, n).remaining > 0 {
      SweptBeyondReach(q, t, r.qty, n);
    }
  }

  /** A market order crosses every price of a book. */
  lemma MarketCrossesAll(b: Book, r: Request, i: nat)
    requires BookOk(b) && r.kind.Market? && i < |b.On(r.side.Opposite())|
    ensures Crosses(TakerOf(r), b.On(r.side.Opposite())[i].price)
  {
    var q := b.On(r.side.Opposite());
    assert SideOk(r.side.Opposite(), q);
  }

  // ---------- sizes stay in range ----------

  lemma {:induction false} SizesBounded(q: seq<Order>, t: Taker, p: int)
    ensures SizeAt(q, p) <= Total(q) && Available(q, t) <= Total(q)
  {
    if q != [] {
      SizesBounded(q[1..], t, p);
      if CanTrade(t, q[0]) {
        AvailableStep(q, t);
      }
    }
  }

  /** While a side's total fits 64 bits, so does every level total and every count of reachable size. */
  lemma SizesFit(q: seq<Order>, t: Taker, p: int)
    requires Total(q) < 0x1_0000_0000_0000_0000
    ensures SizeAt(q, p) < 0x1_0000_0000_0000_0000 && Available(q, t) < 0x1_0000_0000_0000_0000
  {
    SizesBounded(q, t, p);
  }

  // ---------- modify ----------

  /** Shrinking at the same price leaves every order where it was. */
  lemma ShrinkKeepsPlace(e: Engine, b: Book, id: nat, qty: nat, n: nat, side: Side, i: nat)
    requires BookOk(b) && Live(b, id) && 0 < qty <= Lookup(b, id).remaining
    requires i < |b.On(side)|
    ensures var w := Modify(e, b, id, Lookup(b, id).price, qty, n).book.On(side);
      |w| == |b.On(side)| &&
      w[i] == if b.On(side)[i].id == id then b.On(side)[i].(remaining := qty) else b.On(side)[i]
  {
    if b.On(side)[i].id == id {
      LiveAt(b, side, i);
    }
  }

  /** A side without one id. */
  function Without(q: seq<Order>, id: nat): seq<Order> {
    if Find(q, id) < |q| then RemoveAt(q, Find(q, id)) else q
  }

  lemma FindInserted(q: seq<Order>, k: nat, o: Order)
    requires k <= |q| && forall i :: 0 <= i < |q| ==> q[i].id != o.id
    ensures Find(InsertAt(q, k, o), o.id) == k
    ensures Without(InsertAt(q, k, o), o.id) == q
  {
    InsertAtIndex(q, k, o);
    var w := InsertAt(q, k, o);
    assert w[k].id == o.id;
    assert forall i :: 0 <= i < k ==> w[i] == q[i];
    assert RemoveAt(w, k) == q;
  }

  /** Nothing from the insertion point on is as good as the newcomer. */
  lemma WorseBehind(side: Side, q: seq<Order>, price: int, i: nat)
    requires Sorted(side, q) && Slot(side, q, price) <= i < |q|
    ensures !NotWorse(side, q[i].price, price)
  {
    var k := Slot(side, q, price);
    if k < i {
      assert NotWorse(side, q[k].price, q[i].price);
    }
  }

  /** `w` has its orders better than or equal to `price` up to `k`, and only worse ones after it. */
  ghost predicate SplitsAt(side: Side, w: seq<Order>, k: nat, price: int) {
    && k < |w|
    && (forall i :: 0 <= i < k ==> NotWorse(side, w[i].price, price))
    && (forall i :: k < i < |w| ==> !NotWorse(side, w[i].price, price))
  }

  lemma SlotSplits(side: Side, q: seq<Order>, k: nat, o: Order)
    requires Sorted(side, q) && k == Slot(side, q, o.price)
    ensures SplitsAt(side, InsertAt(q, k, o), k, o.price)
  {
    InsertAtIndex(q, k, o);
    var w := InsertAt(q, k, o);
    forall i | k < i < |w|
      ensures !NotWorse(side, w[i].price, o.price)
    {
      WorseBehind(side, q, o.price, i - 1);
    }
  }

  /** An order that comes to rest is behind everything at least as good, and ahead of all else. */
  lemma RestedIsLast(side: Side, q: seq<Order>, o: Order, w: seq<Order>)
    requires SideOk(side, q) && forall i :: 0 <= i < |q| ==> q[i].id != o.id
    requires w == InsertAt(q, Slot(side, q, o.price), o)
    ensures Without(w, o.id) == q
    ensures SplitsAt(side, w, Find(w, o.id), o.price)
  {
    var k := Slot(side, q, o.price);
    FindInserted(q, k, o);
    SlotSplits(side, q, k, o);
  }

  /**
   Any other modify gives up the order's place and nothing else: the side it rested on keeps the
   others in order, the opposite side only loses a prefix, and if the order rests again it is
   behind every order of its new price.
   */
  lemma ResubmitKeepsOthers(e: Engine, b: Book, id: nat, price: int, qty: nat, n: nat)
    requires Good(b) && LegalModify(b, id, price, qty)
    requires Live(b, id) && qty > 0 && !ShrinksInPlace(Lookup(b, id), price, qty)
    ensures var o, side := Lookup(b, id), SideHolding(b, id);
      var w := Modify(e, b, id, price, qty, n).book;
      && Without(w.On(side), id) == Without(b.On(side), id)
      && IsRemainder(b.On(side.Opposite()), w.On(side.Opposite()))
      && (IsOn(w, side, id) ==> SplitsAt(side, w.On(side), Find(w.On(side), id), price))
  {
    var o, side := Lookup(b, id), SideHolding(b, id);
    var c := Cancel(b, id);
    CancelGood(b, id);
    NotLive(c, id);
    var r := Resubmission(o, price, qty);
    assert o.side == side;
    SubmitKeepsOthers(e, c, r, n);
  }

  lemma SubmitKeepsOthers(e: Engine, b: Book, r: Request, n: nat)
    requires Good(b) && r.kind.Limit? && !Live(b, r.id)
    ensures var w := Submit(e, b, r, n).book;
      && Without(w.On(r.side), r.id) == b.On(r.side)
      && IsRemainder(b.On(r.side.Opposite()), w.On(r.side.Opposite()))
      && (IsOn(w, r.side, r.id) ==> SplitsAt(r.side, w.On(r.side), Find(w.On(r.side), r.id), r.price))
  {
    NotLive(b, r.id);
    var opp := b.On(r.side.Opposite());
    SweepKeeps(opp, TakerOf(r), r.qty, n);
    var s := SweepOf(b, r, n);
    var rested := OrderOf(r, s.remaining);
    var w := Submit(e, b, r, n).book;
    SubmitSides(e, b, r, n);
    if Rests(b, r, n) && HasRoom(e, AfterSweep(b, r, n)) {
      RestedIsLast(r.side, b.On(r.side), rested, w.On(r.side));
    } else {
      assert Find(b.On(r.side), r.id) == |b.On(r.side)|;
    }
  }

  /** A limit submit sweeps the opposite side and may insert on its own side; that is all. */
  lemma SubmitSides(e: Engine, b: Book, r: Request, n: nat)
    requires r.kind.Limit?
    ensures var w, own := Submit(e, b, r, n).book, b.On(r.side);
      && w.On(r.side.Opposite()) == SweepOf(b, r, n).queue
      && w.On(r.side) == if Rests(b, r, n) && HasRoom(e, AfterSweep(b, r, n))
                         then InsertAt(own, Slot(r.side, own, r.price), OrderOf(r, SweepOf(b, r, n).remaining))
                         else own
  {
  }

  // ---------- conservation ----------

  function BookTotal(b: Book): nat {
    Total(b.bids) + Total(b.asks)
  }

  lemma TotalInsert(q: seq<Order>, k: nat, o: Order)
    requires k <= |q|
    ensures Total(InsertAt(q, k, o)) == Total(q) + o.remaining
  {
    assert q == q[..k] + q[k..];
    TotalAppend(q[..k], q[k..]);
    TotalAppend(q[..k] + [o], q[k..]);
    TotalAppend(q[..k], [o]);
    assert [o][1..] == [];
  }

  lemma TotalRemove(q: seq<Order>, k: nat)
    requires k < |q|
    ensures Total(RemoveAt(q, k)) + q[k].remaining == Total(q)
  {
    hide Total;
    var w := RemoveAt(q, k);
    assert w[..k] == q[..k] && w[k..] == q[k + 1..];
    assert q == q[..k] + [q[k]] + q[k + 1..];
    TotalInsert(w, k, q[k]);
  }

  lemma TotalResize(q: seq<Order>, k: nat, qty: nat)
    requires k < |q|
    ensures Total(q[k := q[k].(remaining := qty)]) + q[k].remaining == Total(q) + qty
  {
    var w := q[k := q[k].(remaining := qty)];
    TotalRemove(q, k);
    TotalRemove(w, k);
    assert RemoveAt(w, k) == RemoveAt(q, k);
  }

  /** Each submit: filled is what the trades say, and the book changes by resting minus filled. */
  lemma SubmitConserves(e: Engine, b: Book, r: Request, n: nat)
    requires Good(b)
    ensures var o := Submit(e, b, r, n);
      && o.result.filled == Traded(o.trades)
      && o.result.filled + o.result.resting <= r.qty
      && (BookTotal(o.book) + o.result.filled == BookTotal(b) + o.result.resting <==>
          !(Rests(b, r, n) && !HasRoom(e, AfterSweep(b, r, n))))
  {
    SweepConserves(b.On(r.side.Opposite()), TakerOf(r), r.qty, n);
    if Rests(b, r, n) {
      var b1 := AfterSweep(b, r, n);
      var o := OrderOf(r, SweepOf(b, r, n).remaining);
      TotalInsert(b1.On(r.side), Slot(r.side, b1.On(r.side), r.price), o);
    }
  }

  lemma CancelConserves(b: Book, id: nat)
    requires Live(b, id)
    ensures BookTotal(Cancel(b, id)) + Lookup(b, id).remaining == BookTotal(b)
  {
    var q := b.On(SideHolding(b, id));
    TotalRemove(q, Find(q, id));
  }

  lemma ResizeConserves(b: Book, id: nat, qty: nat)
    requires Live(b, id)
    ensures BookTotal(Resize(b, id, qty)) + Lookup(b, id).remaining == BookTotal(b) + qty
  {
    var q := b.On(SideHolding(b, id));
    TotalResize(q, Find(q, id), qty);
  }

  /** The reported best price is the highest bid or the lowest ask, and -1 on an empty side. */
  lemma TopIsBest(side: Side, q: seq<Order>)
    requires SideOk(side, q)
    ensures if q == [] then BestPrice(q) == -1
            else
              && BestPrice(q) >= 0 && (exists i :: 0 <= i < |q| && q[i].price == BestPrice(q))
              && forall i :: 0 <= i < |q| ==> if side.Buy? then q[i].price <= BestPrice(q) else q[i].price >= BestPrice(q)
  {
    if q != [] {
      assert q[0].price == BestPrice(q);
      forall i | 0 <= i < |q|
        ensures if side.Buy? then q[i].price <= BestPrice(q) else q[i].price >= BestPrice(q)
      {
        assert i > 0 ==> NotWorse(side, q[0].price, q[i].price);
      }
    }
  }
}
