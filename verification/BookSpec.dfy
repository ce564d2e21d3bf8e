/**
 The limit order book as a value: each side is one sequence of orders, best price first and,
 within a price, oldest first. Every book of the repository is proved against these functions.
 */
module BookSpec {
  import opened Types

  datatype Book = Book(bids: seq<Order>, asks: seq<Order>) {
    function On(side: Side): seq<Order> {
      if side.Buy? then bids else asks
    }

    function With(side: Side, q: seq<Order>): Book {
      if side.Buy? then Book(q, asks) else Book(bids, q)
    }

    function Count(): nat {
      |bids| + |asks|
    }
  }

  // ---------- what makes a book well formed ----------

  /** Price `a` is at least as good as `b` for orders resting on `side`. */
  predicate NotWorse(side: Side, a: int, b: int) {
    if side.Buy? then a >= b else a <= b
  }

  ghost predicate Sorted(side: Side, q: seq<Order>) {
    forall i, j :: 0 <= i < j < |q| ==> NotWorse(side, q[i].price, q[j].price)
  }

  ghost predicate UniqueIds(q: seq<Order>) {
    forall i, j :: 0 <= i < j < |q| ==> q[i].id != q[j].id
  }

  ghost predicate SideOk(side: Side, q: seq<Order>) {
    && Sorted(side, q)
    && UniqueIds(q)
    && forall i :: 0 <= i < |q| ==> q[i].side == side && 0 <= q[i].price <= MAX_PRICE
  }

  ghost predicate Uncrossed(b: Book) {
    forall i, j :: 0 <= i < |b.bids| && 0 <= j < |b.asks| ==> b.bids[i].price < b.asks[j].price
  }

  ghost predicate DisjointIds(b: Book) {
    forall i, j :: 0 <= i < |b.bids| && 0 <= j < |b.asks| ==> b.bids[i].id != b.asks[j].id
  }

  ghost predicate BookOk(b: Book) {
    && SideOk(Buy, b.bids)
    && SideOk(Sell, b.asks)
    && Uncrossed(b)
    && DisjointIds(b)
  }

  ghost predicate AllPositive(q: seq<Order>) {
    forall i :: 0 <= i < |q| ==> q[i].remaining > 0
  }

  ghost predicate Positive(b: Book) {
    AllPositive(b.bids) && AllPositive(b.asks)
  }

  // ---------- observables ----------

  function BestPrice(q: seq<Order>): int {
    if q == [] then -1 else q[0].price
  }

  function Total(q: seq<Order>): nat {
    if q == [] then 0 else q[0].remaining + Total(q[1..])
  }

  /** Size resting at one price. */
  function SizeAt(q: seq<Order>, p: int): nat {
    if q == [] then 0 else (if q[0].price == p then q[0].remaining else 0) + SizeAt(q[1..], p)
  }

  // ---------- the sweep ----------

  /** The incoming order as the sweep sees it. */
  datatype Taker = Taker(id: nat, side: Side, limit: int, owner: nat)

  predicate Crosses(t: Taker, p: int) {
    if t.side.Buy? then p <= t.limit else p >= t.limit
  }

  predicate SameOwner(t: Taker, o: Order) {
    t.owner != 0 && t.owner == o.owner
  }

  predicate CanTrade(t: Taker, o: Order) {
    Crosses(t, o.price) && !SameOwner(t, o)
  }

  datatype Swept = Swept(queue: seq<Order>, remaining: nat, trades: seq<Trade>)

  /** Trade with the head of `q` until `t` is exhausted or the head cannot trade; `n` numbers the trades. */
  function Sweep(q: seq<Order>, t: Taker, rem: nat, n: nat): (s: Swept)
    ensures s.remaining <= rem
  {
    if rem == 0 || q == [] || !CanTrade(t, q[0]) then
      Swept(q, rem, [])
    else
      var o := q[0];
      var traded := Min(rem, o.remaining);
      var trade := Trade(o.id, t.id, o.price, traded, n);
      if traded == o.remaining then
        var s := Sweep(q[1..], t, rem - traded, n + 1);
        s.(trades := [trade] + s.trades)
      else
        Swept([o.(remaining := o.remaining - traded)] + q[1..], 0, [trade])
  }

  /** How many leading orders of `q` the taker may trade with. */
  function Reach(q: seq<Order>, t: Taker): (k: nat)
    ensures k <= |q|
    ensures forall i :: 0 <= i < k ==> CanTrade(t, q[i])
    ensures k < |q| ==> !CanTrade(t, q[k])
  {
    if q == [] || !CanTrade(t, q[0]) then 0 else 1 + Reach(q[1..], t)
  }

  /** The size of those orders. */
  function Available(q: seq<Order>, t: Taker): nat {
    Total(q[..Reach(q, t)])
  }

  predicate TopCrosses(q: seq<Order>, t: Taker) {
    q != [] && Crosses(t, q[0].price)
  }

  // ---------- operations ----------

  /** The two engines differ in two corners only: the FOK pre-check of size zero and the slot limit. */
  datatype Engine = Reference | Pooled(slots: nat)

  predicate CanFill(e: Engine, q: seq<Order>, t: Taker, qty: nat) {
    && (e.Pooled? ==> TopCrosses(q, t))
    && Available(q, t) >= qty
  }

  predicate HasRoom(e: Engine, b: Book) {
    e.Pooled? ==> b.Count() < e.slots
  }

  function LimitOf(r: Request): int {
    if r.kind.Market? then (if r.side.Buy? then MAX_PRICE else MIN_PRICE) else r.price
  }

  function TakerOf(r: Request): Taker {
    Taker(r.id, r.side, LimitOf(r), r.owner)
  }

  function OrderOf(r: Request, remaining: nat): Order {
    Order(r.id, r.side, r.price, remaining, r.owner, r.tif, r.expiry)
  }

  /** Where an order of this price queues: behind everything at least as good. */
  function Slot(side: Side, q: seq<Order>, price: int): (k: nat)
    ensures k <= |q|
    ensures forall i :: 0 <= i < k ==> NotWorse(side, q[i].price, price)
    ensures k < |q| ==> !NotWorse(side, q[k].price, price)
  {
    if q == [] || !NotWorse(side, q[0].price, price) then 0 else 1 + Slot(side, q[1..], price)
  }

  function InsertAt<T>(q: seq<T>, k: nat, o: T): seq<T>
    requires k <= |q|
  {
    q[..k] + [o] + q[k..]
  }

  function RemoveAt<T>(q: seq<T>, k: nat): seq<T>
    requires k < |q|
  {
    q[..k] + q[k + 1..]
  }

  function Rest(b: Book, o: Order): Book {
    var q := b.On(o.side);
    b.With(o.side, InsertAt(q, Slot(o.side, q, o.price), o))
  }

  datatype Outcome = Outcome(book: Book, result: ExecResult, trades: seq<Trade>)

  /** The sweep of a request against the opposite side. */
  function SweepOf(b: Book, r: Request, n: nat): Swept {
    Sweep(b.On(r.side.Opposite()), TakerOf(r), r.qty, n)
  }

  function AfterSweep(b: Book, r: Request, n: nat): Book {
    b.With(r.side.Opposite(), SweepOf(b, r, n).queue)
  }

  /** The remainder of a limit order rests unless the book would be crossed by it. */
  predicate Rests(b: Book, r: Request, n: nat) {
    && r.kind.Limit?
    && SweepOf(b, r, n).remaining > 0
    && !TopCrosses(SweepOf(b, r, n).queue, TakerOf(r))
  }

  function Submit(e: Engine, b: Book, r: Request, n: nat): Outcome {
    if r.kind.Fok? && !CanFill(e, b.On(r.side.Opposite()), TakerOf(r), r.qty) then
      Outcome(b, ExecResult(r.id, 0, 0, false, false), [])
    else
      var s := SweepOf(b, r, n);
      var b1 := AfterSweep(b, r, n);
      var rests := Rests(b, r, n);
      Outcome(
        if rests && HasRoom(e, b1) then Rest(b1, OrderOf(r, s.remaining)) else b1,
        ExecResult(r.id, r.qty - s.remaining, if rests then s.remaining else 0, true, s.remaining == 0),
        s.trades)
  }

  /** Position of an id in a side, or the length of the side. */
  function Find(q: seq<Order>, id: nat): (k: nat)
    ensures k <= |q|
    ensures k < |q| ==> q[k].id == id
    ensures forall i :: 0 <= i < k ==> q[i].id != id
  {
    if q == [] || q[0].id == id then 0 else 1 + Find(q[1..], id)
  }

  predicate IsOn(b: Book, side: Side, id: nat) {
    Find(b.On(side), id) < |b.On(side)|
  }

  predicate Live(b: Book, id: nat) {
    IsOn(b, Buy, id) || IsOn(b, Sell, id)
  }

  function SideHolding(b: Book, id: nat): (side: Side)
    requires Live(b, id)
    ensures IsOn(b, side, id)
  {
    if IsOn(b, Buy, id) then Buy else Sell
  }

  function Lookup(b: Book, id: nat): (o: Order)
    requires Live(b, id)
    ensures o.id == id
  {
    var q := b.On(SideHolding(b, id));
    q[Find(q, id)]
  }

  /** The book without order `id`; unchanged when there is none. */
  function Cancel(b: Book, id: nat): Book {
    if !Live(b, id) then b
    else
      var side := SideHolding(b, id);
      b.With(side, RemoveAt(b.On(side), Find(b.On(side), id)))
  }

  /** The book with the size of order `id` replaced where it stands. */
  function Resize(b: Book, id: nat, qty: nat): Book
    requires Live(b, id)
  {
    var side := SideHolding(b, id);
    var q := b.On(side);
    var k := Find(q, id);
    b.With(side, q[k := q[k].(remaining := qty)])
  }

  predicate ShrinksInPlace(o: Order, price: int, qty: nat) {
    price == o.price && qty <= o.remaining
  }

  function Resubmission(o: Order, price: int, qty: nat): Request {
    Request(o.id, o.side, Limit, price, qty, o.owner, o.tif, o.expiry)
  }

  function Modify(e: Engine, b: Book, id: nat, price: int, qty: nat, n: nat): Outcome {
    if !Live(b, id) then Outcome(b, NO_RESULT, [])
    else
      var o := Lookup(b, id);
      if qty == 0 then Outcome(Cancel(b, id), ExecResult(id, 0, 0, true, false), [])
      else if ShrinksInPlace(o, price, qty) then Outcome(Resize(b, id, qty), ExecResult(id, 0, qty, true, false), [])
      else Submit(e, Cancel(b, id), Resubmission(o, price, qty), n)
  }
}
