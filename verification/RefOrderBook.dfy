/** The reference book: one ordered map of FIFOs per side, nothing cached. */
module RefOrderBooks {
  import opened Types
  import opened BookSpec
  import opened BookInvariants
  import opened Ticks
  import opened LadderSteps
  import opened MatchSteps
  import opened PriceMaps
  import Maps

  datatype Info = Info(side: Side, price: int, owner: nat)

  function InfoOf(o: Order): Info {
    Info(o.side, o.price, o.owner)
  }

  /** The id index lists exactly the orders of the book. */
  ghost predicate InfoOk(idx: map<nat, Info>, b: Book) {
    && (forall i :: 0 <= i < |b.bids| ==> b.bids[i].id in idx && idx[b.bids[i].id] == InfoOf(b.bids[i]))
    && (forall i :: 0 <= i < |b.asks| ==> b.asks[i].id in idx && idx[b.asks[i].id] == InfoOf(b.asks[i]))
    && (forall id :: id in idx ==> Live(b, id))
    && |idx| == b.Count()
  }

  lemma InfoLookup(idx: map<nat, Info>, b: Book, id: nat)
    requires InfoOk(idx, b)
    ensures id in idx <==> Live(b, id)
    ensures id in idx ==> idx[id] == InfoOf(Lookup(b, id))
  {
  }

  lemma InfoAt(idx: map<nat, Info>, b: Book, side: Side, i: nat)
    requires InfoOk(idx, b) && i < |b.On(side)|
    ensures b.On(side)[i].id in idx && idx[b.On(side)[i].id] == InfoOf(b.On(side)[i])
  {
  }

  lemma InfoFromSides(idx: map<nat, Info>, b: Book)
    requires forall side, i: nat :: i < |b.On(side)| ==> b.On(side)[i].id in idx && idx[b.On(side)[i].id] == InfoOf(b.On(side)[i])
    requires forall id :: id in idx ==> Live(b, id)
    requires |idx| == b.Count()
    ensures InfoOk(idx, b)
  {
    assert forall i: nat :: i < |b.bids| ==> b.On(Buy)[i] == b.bids[i];
    assert forall i: nat :: i < |b.asks| ==> b.On(Sell)[i] == b.asks[i];
  }

  /** Erasing the `k`-th order of a side from book and index alike. */
  lemma InfoErase(idx: map<nat, Info>, b: Book, side: Side, k: nat)
    requires BookOk(b) && InfoOk(idx, b) && k < |b.On(side)|
    ensures InfoOk(idx - {b.On(side)[k].id}, b.With(side, RemoveAt(b.On(side), k)))
  {
    hide InfoOk, BookOk;
    var id := b.On(side)[k].id;
    var w := b.With(side, RemoveAt(b.On(side), k));
    var rest := idx - {id};
    LiveAt(b, side, k);
    CancelGood(b, id);
    assert w == Cancel(b, id);
    RemoveAtIndex(b.On(side), k);
    InfoAt(idx, b, side, k);
    Maps.RemoveSize(idx, id);
    InfoCount(idx, b);
    forall s, i: nat | i < |w.On(s)|
      ensures w.On(s)[i].id in rest && rest[w.On(s)[i].id] == InfoOf(w.On(s)[i])
    {
      var j := if s == side && i >= k then i + 1 else i;
      InfoAt(idx, b, s, j);
    }
    forall x | x in rest
      ensures Live(w, x)
    {
      InfoLookup(idx, b, x);
      StillLive(b, side, k, x);
    }
    InfoFromSides(rest, w);
  }

  lemma InfoCount(idx: map<nat, Info>, b: Book)
    requires InfoOk(idx, b)
    ensures |idx| == b.Count()
  {
  }

  /** Changing a size changes nothing the index records. */
  lemma InfoUpdate(idx: map<nat, Info>, b: Book, side: Side, k: nat, qty: nat)
    requires InfoOk(idx, b) && k < |b.On(side)|
    ensures InfoOk(idx, b.With(side, b.On(side)[k := b.On(side)[k].(remaining := qty)]))
  {
    hide InfoOk;
    var q := b.On(side);
    var w := b.With(side, q[k := q[k].(remaining := qty)]);
    InfoCount(idx, b);
    forall s, i: nat | i < |w.On(s)|
      ensures w.On(s)[i].id in idx && idx[w.On(s)[i].id] == InfoOf(w.On(s)[i])
    {
      InfoAt(idx, b, s, i);
    }
    forall id | id in idx
      ensures Live(w, id)
    {
      InfoLookup(idx, b, id);
      UpdateLive(b, side, k, qty, id);
    }
    InfoFromSides(idx, w);
  }

  lemma UpdateLive(b: Book, side: Side, k: nat, qty: nat, id: nat)
    requires k < |b.On(side)| && Live(b, id)
    ensures Live(b.With(side, b.On(side)[k := b.On(side)[k].(remaining := qty)]), id)
  {
    var q := b.On(side);
    var f := Find(q, id);
    if f < |q| {
      assert q[k := q[k].(remaining := qty)][f].id == id;
    }
  }

  lemma InfoInsert(idx: map<nat, Info>, b: Book, o: Order)
    requires InfoOk(idx, b) && !Live(b, o.id)
    ensures InfoOk(idx[o.id := InfoOf(o)], Rest(b, o))
  {
    hide InfoOk, Slot;
    var q := b.On(o.side);
    var k := Slot(o.side, q, o.price);
    var w, more := Rest(b, o), idx[o.id := InfoOf(o)];
    InfoLookup(idx, b, o.id);
    InsertAtIndex(q, k, o);
    InfoCount(idx, b);
    Maps.AddSize(idx, o.id, InfoOf(o));
    forall s, i: nat | i < |w.On(s)|
      ensures w.On(s)[i].id in more && more[w.On(s)[i].id] == InfoOf(w.On(s)[i])
    {
      if !(s == o.side && i == k) {
        InfoAt(idx, b, s, if s == o.side && i > k then i - 1 else i);
      }
    }
    forall id | id in more
      ensures Live(w, id)
    {
      if id != o.id {
        InfoLookup(idx, b, id);
      }
      InsertLive(b, o, id);
    }
    InfoFromSides(more, w);
  }

  lemma InsertLive(b: Book, o: Order, id: nat)
    requires Live(b, id) || id == o.id
    ensures Live(Rest(b, o), id)
  {
    hide Slot;
    var q := b.On(o.side);
    var k := Slot(o.side, q, o.price);
    InsertAtIndex(q, k, o);
    var f := Find(q, id);
    if id == o.id {
      assert InsertAt(q, k, o)[k].id == id;
    } else if f < |q| {
      assert InsertAt(q, k, o)[if f < k then f else f + 1].id == id;
    }
  }

  /** Trading with the oldest order at the best key, and dropping the level if that empties it. */
  lemma TakeFront(m: PriceMap, side: Side, traded: nat)
    requires MapOk(m, side) && m != map[]
    requires traded <= m[BestKey(m, side)][0].remaining
    ensures var k := BestKey(m, side);
      && Line(m, side) != [] && Line(m, side)[0] == m[k][0]
      && MapOk(Put(m, k, HeadTaken(m[k], traded)), side)
      && Line(Put(m, k, HeadTaken(m[k], traded)), side) == HeadTaken(Line(m, side), traded)
  {
    hide Line;
    var k := BestKey(m, side);
    var w := HeadTaken(m[k], traded);
    LineStart(m, side);
    PutOk(m, side, k, w);
    var a, c := MapSplice(m, side, k, w);
    FrontIsBest(m, side, a, c);
    assert a == [];
    assert [] + m[k] + c == m[k] + c && [] + w + c == w + c;
    assert HeadTaken(m[k] + c, traded) == w + c;
  }

  lemma FrontIsBest(m: PriceMap, side: Side, a: seq<Order>, c: seq<Order>)
    requires MapOk(m, side) && m != map[]
    requires Line(m, side) == a + m[BestKey(m, side)] + c && AllBetter(side, a, BestKey(m, side))
    ensures a == []
  {
    LineBounded(m, side, BestKey(m, side));
    var top, first := BestPrice(Line(m, side)), BestPrice(a);
    if a != [] {
      assert false;
    }
  }

  class RefOrderBook {
    var bids: PriceMap
    var asks: PriceMap
    var idIndex: map<nat, Info>
    var seqNo: nat
    /** What the trade sink has received. */
    var tape: seq<Trade>

    ghost function Content(): Book
      reads this
    {
      Book(Line(bids, Buy), Line(asks, Sell))
    }

    ghost predicate Valid()
      reads this
    {
      && MapOk(bids, Buy) && MapOk(asks, Sell)
      && BookOk(Content()) && Positive(Content())
      && InfoOk(idIndex, Content())
    }

    function SideMap(side: Side): PriceMap
      reads this
    {
      if side.Buy? then bids else asks
    }

    constructor ()
      ensures Valid()
      ensures Content() == Book([], []) && seqNo == 0 && tape == []
    {
      hide Line, MapOk, BookOk, Positive, InfoOk;
      bids, asks, idIndex, seqNo, tape := map[], map[], map[], 0, [];
      new;
      EmptyBook();
    }

    // ---------- queries ----------

    method BestBid() returns (p: int)
      requires Valid()
      ensures p == BestPrice(Content().bids)
    {
      LineStart(bids, Buy);
      p := if bids == map[] then -1 else LastKey(bids);
    }

    method BestAsk() returns (p: int)
      requires Valid()
      ensures p == BestPrice(Content().asks)
    {
      LineStart(asks, Sell);
      p := if asks == map[] then -1 else FirstKey(asks);
    }

    method SizeOn(side: Side, p: int) returns (size: nat)
      requires Valid()
      ensures size == SizeAt(Content().On(side), p)
    {
      hide Line, BookOk, InfoOk, SizeAt, BestPrice;
      var m := SideMap(side);
      LineSize(m, side, p);
      EmptyTotal();
      size := 0;
      if p !in m {
        return;
      }
      var dq := m[p];
      for i := 0 to |dq|
        invariant size == Total(dq[..i])
      {
        TotalTake(dq, i);
        size := size + dq[i].remaining;
      }
      assert dq[..|dq|] == dq;
    }

    method OpenOrders() returns (n: nat)
      requires Valid()
      ensures n == Content().Count()
    {
      n := |idIndex|;
    }

    // ---------- matching ----------

    /** Replaces the map of one side. */
    method SetSide(side: Side, m: PriceMap)
      modifies this`bids, this`asks
      ensures bids == (if side.Buy? then m else old(bids)) && asks == (if side.Sell? then m else old(asks))
    {
      if side.Buy? { bids := m; } else { asks := m; }
    }

    /** Applies a trade to the oldest order of the best level; a used-up order leaves level and index. */
    method Fill(side: Side, traded: nat)
      requires Valid() && SideMap(side) != map[]
      requires traded <= SideMap(side)[BestKey(SideMap(side), side)][0].remaining
      modifies this
      ensures Valid() && seqNo == old(seqNo) && tape == old(tape)
      ensures old(Content()).On(side) != []
      ensures old(Content()).On(side)[0] == old(SideMap(side))[BestKey(old(SideMap(side)), side)][0]
      ensures Content() == old(Content()).With(side, HeadTaken(old(Content()).On(side), traded))
    {
      hide Line, MapOk, BookOk, InfoOk, Positive, HeadTaken;
      ghost var b := Content();
      var m := SideMap(side);
      LevelNotEmpty(m, side, BestKey(m, side));
      var k := BestKey(m, side);
      var dq := m[k];
      var rst := dq[0];
      TakeFront(m, side, traded);
      FillGood(idIndex, b, side, traded);
      HeadTakenCases(dq, traded);
      if traded == rst.remaining {
        dq := dq[1..];
        idIndex := idIndex - {rst.id};
        SetSide(side, if dq == [] then m - {k} else m[k := dq]);
      } else {
        SetSide(side, m[k := dq[0 := rst.(remaining := rst.remaining - traded)]]);
      }
    }

    method DoMatch(t: Taker, qty: nat) returns (remaining: nat, filled: nat)
      requires Valid()
      modifies this
      ensures Valid()
      ensures var side := t.side.Opposite();
        var s := Sweep(old(Content()).On(side), t, qty, old(seqNo));
        && Content() == old(Content()).With(side, s.queue)
        && remaining == s.remaining && filled == qty - remaining
        && tape == old(tape) + s.trades && seqNo == old(seqNo) + |s.trades|
    {
      hide Line, MapOk, BookOk, InfoOk, Positive, HeadTaken, OnCourse, Sweep, BestPrice;
      remaining, filled := qty, 0;
      var side := t.side.Opposite();
      ghost var q0 := Content().On(side);
      ghost var done: seq<Trade> := [];
      CourseStarts(q0, t, qty, seqNo);
      while remaining > 0 && SideMap(side) != map[]
        invariant Valid()
        invariant Content() == old(Content()).With(side, Content().On(side))
        invariant remaining <= qty && filled == qty - remaining
        invariant tape == old(tape) + done && seqNo == old(seqNo) + |done|
        invariant OnCourse(q0, t, qty, old(seqNo), Content().On(side), remaining, done)
        decreases remaining
      {
        var opp := SideMap(side);
        var best := BestKey(opp, side);
        LineTop(opp, side);
        if t.side.Buy? && best > t.limit { break; }
        if t.side.Sell? && best < t.limit { break; }
        var rst := opp[best][0];
        if t.owner != 0 && t.owner == rst.owner { break; }
        var traded := Min(remaining, rst.remaining);
        CourseStep(q0, t, qty, old(seqNo), Content().On(side), remaining, done);
        HeadPositive(Content(), side);
        done := done + [Trade(rst.id, t.id, rst.price, traded, seqNo)];
        tape := tape + [Trade(rst.id, t.id, rst.price, traded, seqNo)];
        seqNo := seqNo + 1;
        remaining := remaining - traded;
        filled := filled + traded;
        Fill(side, traded);
      }
      LineTop(SideMap(side), side);
      CourseEnds(q0, t, qty, old(seqNo), Content().On(side), remaining, done);
    }

    /** Walks one level, adding sizes until an order of the taker's owner stops it. */
    static method ScanLevel(dq: seq<Order>, t: Taker, avail: nat) returns (more: bool, total: nat)
      requires forall i :: 0 <= i < |dq| ==> Crosses(t, dq[i].price)
      ensures more <==> Reach(dq, t) == |dq|
      ensures total == avail + if more then Total(dq) else Available(dq, t)
    {
      hide Total, Available, Reach;
      EmptyTotal();
      total := avail;
      for i := 0 to |dq|
        invariant total == avail + Total(dq[..i])
        invariant forall j :: 0 <= j < i ==> CanTrade(t, dq[j])
      {
        if t.owner != 0 && dq[i].owner == t.owner {
          ReachIs(dq, t, i);
          return false, total;
        }
        TotalTake(dq, i);
        total := total + dq[i].remaining;
      }
      ReachIs(dq, t, |dq|);
      assert dq[..|dq|] == dq;
      more := true;
    }

    /** The fill-or-kill pre-check; `rest` holds the levels the iterator has not reached yet. */
    method CanFill(t: Taker, qty: nat) returns (ok: bool)
      requires Valid()
      ensures ok <==> Available(Content().On(t.side.Opposite()), t) >= qty
    {
      hide Line, MapOk, BookOk, InfoOk, Positive, Available, Reach, Total, BestPrice;
      var side := t.side.Opposite();
      var avail: nat := 0;
      var rest := SideMap(side);
      var more := true;
      while rest != map[] && Crosses(t, BestKey(rest, side))
        invariant MapOk(rest, side)
        invariant Available(Content().On(side), t) == avail + Available(Line(rest, side), t)
        decreases |rest|
      {
        var k := BestKey(rest, side);
        LineStart(rest, side);
        LevelPriced(rest, side, k);
        AvailableAppend(rest[k], Line(rest - {k}, side), t);
        more, avail := ScanLevel(rest[k], t, avail);
        if !more {
          return avail >= qty;
        }
        if avail >= qty {
          return true;
        }
        Maps.RemoveSize(rest, k);
        rest := rest - {k};
      }
      NothingCrosses(rest, side, t);
      return avail >= qty;
    }

    // ---------- commands ----------

    method RestOrder(o: Order)
      requires Valid() && o.remaining > 0 && 0 <= o.price <= MAX_PRICE && !Live(Content(), o.id)
      requires !TopCrosses(Content().On(o.side.Opposite()), Taker(o.id, o.side, o.price, o.owner))
      modifies this
      ensures Valid() && seqNo == old(seqNo) && tape == old(tape)
      ensures Content() == Rest(old(Content()), o)
    {
      hide Line, MapOk, BookOk, InfoOk, Positive, Slot, Live, TopCrosses;
      var m := SideMap(o.side);
      PushRests(m, o.side, o);
      RestGood(Content(), o);
      InfoInsert(idIndex, Content(), o);
      SetSide(o.side, m[o.price := At(m, o.price) + [o]]);
      idIndex := idIndex[o.id := InfoOf(o)];
    }

    method Submit(r: Request) returns (res: ExecResult)
      requires Valid() && LegalSubmit(Content(), r)
      modifies this
      ensures Valid()
      ensures var o := BookSpec.Submit(Reference, old(Content()), r, old(seqNo));
        && Content() == o.book && res == o.result
        && tape == old(tape) + o.trades && seqNo == old(seqNo) + |o.trades|
    {
      hide Line, MapOk, BookOk, InfoOk, Positive, Sweep, Available, Rest, Live, BestPrice;
      res := ExecResult(r.id, 0, 0, false, false);
      if r.kind.Fok? {
        var ok := CanFill(TakerOf(r), r.qty);
        if !ok { return; }
      }
      var limit := if r.kind.Market? then (if r.side.Buy? then MAX_PRICE else MIN_PRICE) else r.price;
      SweepGood(Content(), r, seqNo);
      var remaining, filled := DoMatch(Taker(r.id, r.side, limit, r.owner), r.qty);
      res := ExecResult(r.id, filled, 0, true, remaining == 0);
      if remaining > 0 && r.kind.Limit? {
        var bestAsk := BestAsk();
        var bestBid := BestBid();
        TopPriced(Content(), r.side.Opposite());
        var wouldCross := (r.side.Buy? && bestAsk >= 0 && r.price >= bestAsk)
                       || (r.side.Sell? && bestBid >= 0 && r.price <= bestBid);
        if !wouldCross {
          RestOrder(OrderOf(r, remaining));
          res := res.(resting := remaining);
        }
      }
    }

    method Cancel(id: nat) returns (found: bool)
      requires Valid()
      modifies this
      ensures Valid() && seqNo == old(seqNo) && tape == old(tape)
      ensures found == Live(old(Content()), id)
      ensures Content() == BookSpec.Cancel(old(Content()), id)
    {
      hide Line, MapOk, BookOk, InfoOk, Positive, Live, Lookup, Find, BookSpec.Cancel;
      ghost var b := Content();
      InfoLookup(idIndex, b, id);
      CancelGood(b, id);
      if id !in idIndex {
        NothingToCancel(b, id);
        return false;
      }
      var info := idIndex[id];
      var book := SideMap(info.side);
      FindInLevel(b, info.side, book, id);
      var dq := book[info.price];
      var i := Find(dq, id);
      ghost var k := EraseAt(book, info.side, info.price, i);
      InfoErase(idIndex, b, info.side, k);
      CancelAt(b, info.side, k);
      dq := RemoveAt(dq, i);
      SetSide(info.side, if dq == [] then book - {info.price} else book[info.price := dq]);
      idIndex := idIndex - {id};
      return true;
    }

    method Modify(id: nat, price: int, qty: nat) returns (res: ExecResult)
      requires Valid() && LegalModify(Content(), id, price, qty)
      modifies this
      ensures Valid()
      ensures var o := BookSpec.Modify(Reference, old(Content()), id, price, qty, old(seqNo));
        && Content() == o.book && res == o.result
        && tape == old(tape) + o.trades && seqNo == old(seqNo) + |o.trades|
    {
      hide Line, MapOk, BookOk, InfoOk, Positive, Live, Lookup, Find, BookSpec.Cancel, BookSpec.Submit, Resize;
      ghost var b := Content();
      InfoLookup(idIndex, b, id);
      if id !in idIndex {
        return NO_RESULT;
      }
      var info := idIndex[id];
      CancelGood(b, id);
      LookupId(b, id);
      if qty == 0 {
        var _ := Cancel(id);
        return ExecResult(id, 0, 0, true, false);
      }
      var book := SideMap(info.side);
      FindInLevel(b, info.side, book, id);
      var dq := book[info.price];
      var oi := Find(dq, id);
      if price == info.price && qty <= dq[oi].remaining {
        ghost var k := UpdateAt(book, info.side, info.price, oi, qty);
        ResizeGood(b, id, qty);
        ResizeAt(b, info.side, k, qty);
        InfoUpdate(idIndex, b, info.side, k, qty);
        SetSide(info.side, book[info.price := dq[oi := dq[oi].(remaining := qty)]]);
        return ExecResult(id, 0, qty, true, false);
      }
      ghost var o := dq[oi];
      var r := Request(id, info.side, Limit, price, qty, info.owner, dq[oi].tif, dq[oi].expiry);
      var _ := Cancel(id);
      assert r == Resubmission(o, price, qty);
      res := Submit(r);
    }
  }

  lemma EmptyBook()
    ensures MapOk(map[], Buy) && MapOk(map[], Sell)
    ensures Line(map[], Buy) == [] && Line(map[], Sell) == []
    ensures BookOk(Book([], [])) && Positive(Book([], [])) && InfoOk(map[], Book([], []))
  {
    hide Line;
    EmptyLine(Buy);
    EmptyLine(Sell);
  }

  lemma LevelNotEmpty(m: PriceMap, side: Side, p: int)
    requires MapOk(m, side) && p in m
    ensures m[p] != [] && m[p][0].price == p && m[p][0].side == side
  {
  }

  lemma LevelPriced(m: PriceMap, side: Side, p: int)
    requires MapOk(m, side) && p in m
    ensures (forall i :: 0 <= i < |m[p]| ==> m[p][i].price == p) && MapOk(m - {p}, side)
  {
  }

  lemma LineTop(m: PriceMap, side: Side)
    requires MapOk(m, side)
    ensures m == map[] <==> Line(m, side) == []
    ensures m != map[] ==> m[BestKey(m, side)] != [] && Line(m, side)[0] == m[BestKey(m, side)][0]
    ensures m != map[] ==> Line(m, side)[0].price == BestKey(m, side)
  {
    LineStart(m, side);
    if m != map[] {
      LevelNotEmpty(m, side, BestKey(m, side));
    }
  }

  lemma NothingCrosses(m: PriceMap, side: Side, t: Taker)
    requires MapOk(m, side) && (m != map[] ==> !Crosses(t, BestKey(m, side)))
    ensures Available(Line(m, side), t) == 0
  {
    LineTop(m, side);
  }

  lemma TopPriced(b: Book, side: Side)
    requires BookOk(b)
    ensures var q := b.On(side); (BestPrice(q) < 0 <==> q == []) && (q != [] ==> q[0].price == BestPrice(q))
  {
  }

  lemma HeadTakenCases(q: seq<Order>, traded: nat)
    requires q != [] && traded <= q[0].remaining
    ensures HeadTaken(q, traded) ==
            if traded == q[0].remaining then q[1..] else q[0 := q[0].(remaining := q[0].remaining - traded)]
  {
  }

  /** Trading with the head keeps book and index in order. */
  lemma FillGood(idx: map<nat, Info>, b: Book, side: Side, traded: nat)
    requires BookOk(b) && Positive(b) && InfoOk(idx, b) && b.On(side) != [] && traded <= b.On(side)[0].remaining
    ensures var q, w := b.On(side), b.With(side, HeadTaken(b.On(side), traded));
      && BookOk(w) && Positive(w)
      && InfoOk(if traded == q[0].remaining then idx - {q[0].id} else idx, w)
  {
    hide BookOk, InfoOk, Resize, Cancel, Lookup, Live;
    var q := b.On(side);
    HeadFilled(b, side, traded);
    HeadTakenPositive(q, traded);
    HeadTakenCases(q, traded);
    if traded == q[0].remaining {
      CancelGood(Resize(b, q[0].id, 0), q[0].id);
      assert RemoveAt(q, 0) == q[1..];
      InfoErase(idx, b, side, 0);
    } else {
      InfoUpdate(idx, b, side, 0, q[0].remaining - traded);
    }
  }

  lemma CancelAt(b: Book, side: Side, k: nat)
    requires BookOk(b) && k < |b.On(side)|
    ensures Cancel(b, b.On(side)[k].id) == b.With(side, RemoveAt(b.On(side), k))
  {
    LiveAt(b, side, k);
  }

  lemma ResizeAt(b: Book, side: Side, k: nat, qty: nat)
    requires BookOk(b) && k < |b.On(side)|
    ensures Live(b, b.On(side)[k].id)
    ensures Resize(b, b.On(side)[k].id, qty) == b.With(side, b.On(side)[k := b.On(side)[k].(remaining := qty)])
  {
    LiveAt(b, side, k);
  }

  /** The index leads to the level that holds the order. */
  lemma FindInLevel(b: Book, side: Side, m: PriceMap, id: nat)
    requires BookOk(b) && Live(b, id) && Lookup(b, id).side == side && b.On(side) == Line(m, side) && MapOk(m, side)
    ensures var o := Lookup(b, id);
      && o.price in m && Find(m[o.price], id) < |m[o.price]| && m[o.price][Find(m[o.price], id)] == o
  {
    hide Line, MapOk;
    var k := Find(b.On(side), id);
    assert SideHolding(b, id) == side;
    var i := LevelHolds(m, side, k);
    var dq := m[b.On(side)[k].price];
    var f := Find(dq, id);
    var k' := LineHolds(m, side, b.On(side)[k].price, f);
    assert k' == k;
  }
}
