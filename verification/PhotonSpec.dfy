/** The lifecycle events of PhotonBook, and a downstream consumer that rebuilds the book from them. */
module PhotonSpec {
  import opened Types
  import opened BookSpec
  import opened SweepTheorems

  datatype UpdateType = Ack | Fill | Canceled | Rejected | Replaced | Expired

  datatype BookUpdate = BookUpdate(kind: UpdateType, side: Side, orderId: nat, counterId: nat, price: int,
                                   quantity: nat, leaves: nat, seqNo: nat)

  // ---------- the events of each command ----------

  /** One Fill per trade, counting down what the incoming order has left. */
  function FillEvents(side: Side, trades: seq<Trade>, rem: nat): seq<BookUpdate>
    requires Traded(trades) <= rem
  {
    if trades == [] then []
    else
      var t := trades[0];
      [BookUpdate(Fill, side, t.incomingId, t.restingId, t.price, t.quantity, rem - t.quantity, t.seqNo)]
      + FillEvents(side, trades[1..], rem - t.quantity)
  }

  lemma {:induction false} FillEventsCount(side: Side, trades: seq<Trade>, rem: nat)
    requires Traded(trades) <= rem
    ensures |FillEvents(side, trades, rem)| == |trades|
  {
    if trades != [] {
      FillEventsCount(side, trades[1..], rem - trades[0].quantity);
    }
  }

  /** What a resting attempt reports. An exhausted pool reports a rejection and then still an Ack. */
  function RestEvents(r: Request, remaining: nat, room: bool, n: nat): seq<BookUpdate> {
    if room then [BookUpdate(Ack, r.side, r.id, 0, r.price, remaining, remaining, n)]
    else [BookUpdate(Rejected, r.side, r.id, 0, r.price, remaining, 0, n),
          BookUpdate(Ack, r.side, r.id, 0, r.price, remaining, remaining, n + 1)]
  }

  function SweepEvents(b: Book, r: Request, n: nat): seq<BookUpdate> {
    SweepConserves(b.On(r.side.Opposite()), TakerOf(r), r.qty, n);
    FillEvents(r.side, SweepOf(b, r, n).trades, r.qty)
  }

  function SubmitEvents(slots: nat, b: Book, r: Request, n: nat): seq<BookUpdate> {
    if r.kind.Fok? && !CanFill(Pooled(slots), b.On(r.side.Opposite()), TakerOf(r), r.qty) then
      [BookUpdate(Rejected, r.side, r.id, 0, r.price, r.qty, 0, n)]
    else
      var s := SweepOf(b, r, n);
      SweepEvents(b, r, n) +
      if Rests(b, r, n)
      then RestEvents(r, s.remaining, HasRoom(Pooled(slots), AfterSweep(b, r, n)), n + |s.trades|)
      else []
  }

  function CancelEvent(o: Order, n: nat): BookUpdate {
    BookUpdate(Canceled, o.side, o.id, 0, o.price, 0, 0, n)
  }

  function ReplaceEvent(o: Order, qty: nat, n: nat): BookUpdate {
    BookUpdate(Replaced, o.side, o.id, 0, o.price, qty, qty, n)
  }

  function ExpireEvent(o: Order, n: nat): BookUpdate {
    BookUpdate(Expired, o.side, o.id, 0, o.price, o.remaining, 0, n)
  }

  function CancelEvents(b: Book, id: nat, n: nat): seq<BookUpdate> {
    if Live(b, id) then [CancelEvent(Lookup(b, id), n)] else []
  }

  function ModifyEvents(slots: nat, b: Book, id: nat, price: int, qty: nat, n: nat): seq<BookUpdate> {
    if !Live(b, id) then []
    else
      var o := Lookup(b, id);
      if qty == 0 then [CancelEvent(o, n)]
      else if ShrinksInPlace(o, price, qty) then [ReplaceEvent(o, qty, n)]
      else SubmitEvents(slots, Cancel(b, id), Resubmission(o, price, qty), n)
  }

  /** The events carry the numbers from `n` on, without gap or repetition. */
  ghost predicate Numbered(us: seq<BookUpdate>, n: nat) {
    forall i :: 0 <= i < |us| ==> us[i].seqNo == n + i
  }

  lemma {:induction false} FillsNumbered(side: Side, q: seq<Order>, t: Taker, rem: nat, n: nat, budget: nat)
    requires Traded(Sweep(q, t, rem, n).trades) <= budget
    ensures Numbered(FillEvents(side, Sweep(q, t, rem, n).trades, budget), n)
  {
    if rem > 0 && q != [] && CanTrade(t, q[0]) {
      var s := Sweep(q, t, rem, n);
      if rem >= q[0].remaining {
        assert s.trades[1..] == Sweep(q[1..], t, rem - q[0].remaining, n + 1).trades;
        FillsNumbered(side, q[1..], t, rem - q[0].remaining, n + 1, budget - q[0].remaining);
      } else {
        assert s.trades[1..] == [];
      }
    }
  }

  /** The events of a submit are numbered consecutively. */
  lemma SubmitNumbered(slots: nat, b: Book, r: Request, n: nat)
    ensures Numbered(SubmitEvents(slots, b, r, n), n)
    ensures |SweepEvents(b, r, n)| == |SweepOf(b, r, n).trades|
  {
    SweepConserves(b.On(r.side.Opposite()), TakerOf(r), r.qty, n);
    FillsNumbered(r.side, b.On(r.side.Opposite()), TakerOf(r), r.qty, n, r.qty);
    FillEventsCount(r.side, SweepOf(b, r, n).trades, r.qty);
  }

  lemma ModifyNumbered(slots: nat, b: Book, id: nat, price: int, qty: nat, n: nat)
    ensures Numbered(ModifyEvents(slots, b, id, price, qty, n), n)
  {
    if Live(b, id) && qty > 0 && !ShrinksInPlace(Lookup(b, id), price, qty) {
      SubmitNumbered(slots, Cancel(b, id), Resubmission(Lookup(b, id), price, qty), n);
    }
  }

  // ---------- the trades a callback sink sees ----------

  /** The callback sink passes a Fill on as a trade and drops everything else. */
  function TradeOf(u: BookUpdate): seq<Trade> {
    if u.kind.Fill? then [Trade(u.counterId, u.orderId, u.price, u.quantity, u.seqNo)] else []
  }

  function TradesOf(us: seq<BookUpdate>): seq<Trade> {
    if us == [] then [] else TradeOf(us[0]) + TradesOf(us[1..])
  }

  lemma TradesOfStep(us: seq<BookUpdate>)
    ensures TradesOf(us) == if us == [] then [] else TradeOf(us[0]) + TradesOf(us[1..])
  {
  }

  lemma {:induction false} TradesOfAppend(a: seq<BookUpdate>, c: seq<BookUpdate>)
    ensures TradesOf(a + c) == TradesOf(a) + TradesOf(c)
    decreases |a|
  {
    hide TradesOf, TradeOf;
    var us := a + c;
    TradesOfStep(a);
    TradesOfStep(us);
    if a == [] {
      assert us == c;
    } else {
      assert us[1..] == a[1..] + c && us[0] == a[0];
      TradesOfAppend(a[1..], c);
      assert TradeOf(a[0]) + (TradesOf(a[1..]) + TradesOf(c)) == TradeOf(a[0]) + TradesOf(a[1..]) + TradesOf(c);
    }
  }

  lemma {:induction false} TradesOfFills(side: Side, trades: seq<Trade>, rem: nat)
    requires Traded(trades) <= rem
    ensures TradesOf(FillEvents(side, trades, rem)) == trades
  {
    if trades != [] {
      TradesOfFills(side, trades[1..], rem - trades[0].quantity);
      var us := FillEvents(side, trades, rem);
      assert us[1..] == FillEvents(side, trades[1..], rem - trades[0].quantity);
    }
  }

  /** Through the callback sink a submit shows exactly the trades of the matching engine. */
  lemma SubmitTrades(slots: nat, b: Book, r: Request, n: nat)
    ensures TradesOf(SubmitEvents(slots, b, r, n)) == Submit(Pooled(slots), b, r, n).trades
  {
    hide Sweep, CanFill, FillEvents, TradesOf;
    SweepConserves(b.On(r.side.Opposite()), TakerOf(r), r.qty, n);
    var s := SweepOf(b, r, n);
    TradesOfFills(r.side, s.trades, r.qty);
    var tail := if Rests(b, r, n)
                then RestEvents(r, s.remaining, HasRoom(Pooled(slots), AfterSweep(b, r, n)), n + |s.trades|) else [];
    NoFills(tail);
    TradesOfAppend(SweepEvents(b, r, n), tail);
    NoFills([BookUpdate(Rejected, r.side, r.id, 0, r.price, r.qty, 0, n)]);
  }

  lemma {:induction false} NoFills(us: seq<BookUpdate>)
    requires forall i :: 0 <= i < |us| ==> !us[i].kind.Fill?
    ensures TradesOf(us) == []
  {
    if us != [] {
      NoFills(us[1..]);
    }
  }

  /** Through the callback sink a modify shows exactly the trades of the matching engine. */
  lemma ModifyTrades(slots: nat, b: Book, id: nat, price: int, qty: nat, n: nat)
    ensures TradesOf(ModifyEvents(slots, b, id, price, qty, n)) == Modify(Pooled(slots), b, id, price, qty, n).trades
  {
    hide Submit, SubmitEvents;
    if Live(b, id) {
      var o := Lookup(b, id);
      NoFills([CancelEvent(o, n)]);
      NoFills([ReplaceEvent(o, qty, n)]);
      SubmitTrades(slots, Cancel(b, id), Resubmission(o, price, qty), n);
    }
  }

  // ---------- rebuilding the book from the stream ----------

  /** What the stream tells about an order: everything but owner and time in force. */
  function Strip(o: Order): Order {
    o.(owner := 0, tif := GTC, expiry := 0)
  }

  function StripAll(q: seq<Order>): (w: seq<Order>)
    ensures |w| == |q| && forall i :: 0 <= i < |q| ==> w[i] == Strip(q[i])
  {
    seq(|q|, i requires 0 <= i < |q| => Strip(q[i]))
  }

  function StripBook(b: Book): Book {
    Book(StripAll(b.bids), StripAll(b.asks))
  }

  /** The consumer's reaction to one update. */
  function Apply(w: Book, u: BookUpdate): Book {
    match u.kind
    case Ack => Rest(w, Order(u.orderId, u.side, u.price, u.leaves, 0, GTC, 0))
    case Fill =>
      if !Live(w, u.counterId) then w
      else
        var o := Lookup(w, u.counterId);
        if o.remaining <= u.quantity then Cancel(w, u.counterId)
        else Resize(w, u.counterId, o.remaining - u.quantity)
    case Canceled => Cancel(w, u.orderId)
    case Expired => Cancel(w, u.orderId)
    case Replaced => if Live(w, u.orderId) then Resize(w, u.orderId, u.leaves) else w
    case Rejected => w
  }

  function Replay(w: Book, us: seq<BookUpdate>): Book
    decreases |us|
  {
    if us == [] then w else Replay(Apply(w, us[0]), us[1..])
  }

  lemma ReplayStep(w: Book, us: seq<BookUpdate>)
    requires us != []
    ensures Replay(w, us) == Replay(Apply(w, us[0]), us[1..])
  {
  }

  lemma ReplayNil(w: Book)
    ensures Replay(w, []) == w
  {
  }

  lemma {:induction false} ReplayAppend(w: Book, a: seq<BookUpdate>, c: seq<BookUpdate>)
    ensures Replay(w, a + c) == Replay(Replay(w, a), c)
    decreases |a|
  {
    hide Apply, Replay;
    var us := a + c;
    if a == [] {
      assert us == c;
      ReplayNil(w);
    } else {
      assert us[1..] == a[1..] + c && us[0] == a[0];
      ReplayStep(w, a);
      ReplayStep(w, us);
      ReplayAppend(Apply(w, a[0]), a[1..], c);
    }
  }

  // ---------- stripping commutes with the book's operations ----------

  lemma {:induction false} StripFind(q: seq<Order>, id: nat)
    ensures Find(StripAll(q), id) == Find(q, id)
  {
    if q != [] {
      StripFind(q[1..], id);
      assert StripAll(q)[1..] == StripAll(q[1..]);
    }
  }

  lemma {:induction false} StripSlot(side: Side, q: seq<Order>, price: int)
    ensures Slot(side, StripAll(q), price) == Slot(side, q, price)
  {
    if q != [] {
      StripSlot(side, q[1..], price);
      assert StripAll(q)[1..] == StripAll(q[1..]);
    }
  }

  lemma StripLive(b: Book, id: nat)
    ensures Live(StripBook(b), id) <==> Live(b, id)
    ensures Live(b, id) ==> SideHolding(StripBook(b), id) == SideHolding(b, id)
    ensures Live(b, id) ==> Lookup(StripBook(b), id) == Strip(Lookup(b, id))
  {
    StripFind(b.bids, id);
    StripFind(b.asks, id);
  }

  lemma StripCancel(b: Book, id: nat)
    ensures StripBook(Cancel(b, id)) == Cancel(StripBook(b), id)
  {
    hide Find, Lookup;
    StripLive(b, id);
    if Live(b, id) {
      var side := SideHolding(b, id);
      var q := b.On(side);
      StripFind(q, id);
      StripRemove(q, Find(q, id));
    }
  }

  lemma StripRemove(q: seq<Order>, k: nat)
    requires k < |q|
    ensures StripAll(RemoveAt(q, k)) == RemoveAt(StripAll(q), k)
  {
  }

  lemma StripResize(b: Book, id: nat, qty: nat)
    requires Live(b, id)
    ensures Live(StripBook(b), id) && StripBook(Resize(b, id, qty)) == Resize(StripBook(b), id, qty)
  {
    StripLive(b, id);
    var side := SideHolding(b, id);
    var q := b.On(side);
    var k := Find(q, id);
    StripFind(q, id);
    assert StripAll(q[k := q[k].(remaining := qty)]) == StripAll(q)[k := StripAll(q)[k].(remaining := qty)];
  }

  lemma StripRest(b: Book, o: Order)
    ensures StripBook(Rest(b, o)) == Rest(StripBook(b), Strip(o))
  {
    hide Slot;
    var q := b.On(o.side);
    var k := Slot(o.side, q, o.price);
    StripSlot(o.side, q, o.price);
    assert StripAll(InsertAt(q, k, o)) == InsertAt(StripAll(q), k, Strip(o));
  }

  lemma StripOk(b: Book)
    requires BookOk(b)
    ensures BookOk(StripBook(b))
  {
    var w := StripBook(b);
    StripSideOk(Buy, b.bids);
    StripSideOk(Sell, b.asks);
    forall i, j | 0 <= i < |w.bids| && 0 <= j < |w.asks|
      ensures w.bids[i].price < w.asks[j].price && w.bids[i].id != w.asks[j].id
    {
      assert b.bids[i].price < b.asks[j].price && b.bids[i].id != b.asks[j].id;
    }
  }

  lemma StripSideOk(side: Side, q: seq<Order>)
    requires SideOk(side, q)
    ensures SideOk(side, StripAll(q))
  {
    var w := StripAll(q);
    forall i, j | 0 <= i < j < |w|
      ensures NotWorse(side, w[i].price, w[j].price) && w[i].id != w[j].id
    {
      assert NotWorse(side, q[i].price, q[j].price) && q[i].id != q[j].id;
    }
  }
}
