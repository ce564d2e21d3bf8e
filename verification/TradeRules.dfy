/**
 What a submit and a modify do, in the words of the request alone: prices, owners and sizes of the order
 handed in and of the orders resting. None of it goes through the functions that define the two.
 */
module TradeRules {
  import opened Types
  import opened BookSpec
  import opened SweepTheorems
  import opened BookInvariants
  import opened BookTheorems

  /** The request may trade at this price: always for a market order, else no worse than it asked for. */
  predicate Within(r: Request, price: int) {
    r.kind.Market? || (if r.side.Buy? then price <= r.price else price >= r.price)
  }

  /** The resting order is no obstacle: the request is anonymous or somebody else's. */
  predicate Foreign(r: Request, o: Order) {
    r.owner == 0 || o.owner != r.owner
  }

  /** The longest prefix of `q` the request can trade with: price in range, no own order on the way. */
  predicate StopsAt(q: seq<Order>, r: Request, k: nat) {
    && k <= |q|
    && (forall i :: 0 <= i < k ==> Within(r, q[i].price) && Foreign(r, q[i]))
    && (k < |q| ==> !(Within(r, q[k].price) && Foreign(r, q[k])))
  }

  /** There is such a prefix. */
  lemma {:induction false} SomeStop(q: seq<Order>, r: Request) returns (k: nat)
    ensures StopsAt(q, r, k)
  {
    if q == [] || !(Within(r, q[0].price) && Foreign(r, q[0])) {
      k := 0;
    } else {
      k := SomeStop(q[1..], r);
      k := k + 1;
      forall i | 0 <= i < k
        ensures Within(r, q[i].price) && Foreign(r, q[i])
      {
        if i > 0 {
          assert q[i] == q[1..][i - 1];
        }
      }
    }
  }

  lemma OppositePrices(b: Book, r: Request, i: nat)
    requires BookOk(b) && i < |b.On(r.side.Opposite())|
    ensures 0 <= b.On(r.side.Opposite())[i].price <= MAX_PRICE
  {
    assert SideOk(r.side.Opposite(), b.On(r.side.Opposite()));
  }

  lemma TradesWith(b: Book, r: Request, i: nat)
    requires BookOk(b) && i < |b.On(r.side.Opposite())|
    ensures var o := b.On(r.side.Opposite())[i];
      && (CanTrade(TakerOf(r), o) <==> Within(r, o.price) && Foreign(r, o))
      && (Crosses(TakerOf(r), o.price) <==> Within(r, o.price))
  {
    OppositePrices(b, r, i);
  }

  lemma ReachIsStop(b: Book, r: Request, k: nat)
    requires BookOk(b) && StopsAt(b.On(r.side.Opposite()), r, k)
    ensures Reach(b.On(r.side.Opposite()), TakerOf(r)) == k
  {
    var q, t := b.On(r.side.Opposite()), TakerOf(r);
    forall i | 0 <= i < |q|
      ensures CanTrade(t, q[i]) <==> Within(r, q[i].price) && Foreign(r, q[i])
    {
      TradesWith(b, r, i);
    }
  }

  // ---------- submit ----------

  /** The pre-check of a fill-or-kill turns the request away. */
  predicate TurnedAway(e: Engine, q: seq<Order>, r: Request, k: nat)
    requires k <= |q|
  {
    r.kind.Fok? && (Total(q[..k]) < r.qty || (e.Pooled? && (q == [] || !Within(r, q[0].price))))
  }

  lemma TurnedAwayExactly(e: Engine, b: Book, r: Request, k: nat)
    requires BookOk(b) && StopsAt(b.On(r.side.Opposite()), r, k)
    ensures TurnedAway(e, b.On(r.side.Opposite()), r, k) <==>
            r.kind.Fok? && !CanFill(e, b.On(r.side.Opposite()), TakerOf(r), r.qty)
  {
    ReachIsStop(b, r, k);
    if b.On(r.side.Opposite()) != [] {
      TradesWith(b, r, 0);
    }
  }

  /**
   The reply to any submit. A fill-or-kill is turned away when the prefix holds less than it asks for, or at a
   pooled book when the best price is out of range. Everything else fills what the prefix holds, up to its
   size; only a limit order rests the remainder, unless it stopped at an order of its own owner in range.
   */
  lemma SubmitReplies(e: Engine, b: Book, r: Request, n: nat, k: nat)
    requires Good(b) && StopsAt(b.On(r.side.Opposite()), r, k)
    ensures var q, res := b.On(r.side.Opposite()), Submit(e, b, r, n).result;
      if TurnedAway(e, q, r, k) then res == ExecResult(r.id, 0, 0, false, false)
      else
        var filled := Min(r.qty, Total(q[..k]));
        var ownAhead := k < |q| && Within(r, q[k].price) && r.owner != 0 && q[k].owner == r.owner;
        res == ExecResult(r.id, filled, if r.kind.Limit? && !ownAhead then r.qty - filled else 0,
                          true, filled == r.qty)
  {
    hide BookOk, Sweep, Total;
    var q := b.On(r.side.Opposite());
    TurnedAwayExactly(e, b, r, k);
    ReachIsStop(b, r, k);
    SweepFills(q, TakerOf(r), r.qty, n);
    if k < |q| {
      TradesWith(b, r, k);
    }
    if SweepOf(b, r, n).remaining > 0 {
      SweptBeyondReach(q, TakerOf(r), r.qty, n);
    }
  }

  /**
   The trades of any submit and what they leave: fills of the first orders of the opposite side, oldest and
   best first, inside the prefix, each at the resting price and all but the last in full.
   */
  lemma SubmitTrades(e: Engine, b: Book, r: Request, n: nat, k: nat)
    requires Good(b) && StopsAt(b.On(r.side.Opposite()), r, k)
    ensures var q, o := b.On(r.side.Opposite()), Submit(e, b, r, n);
      var m := |o.trades|;
      && m <= k && Traded(o.trades) == o.result.filled
      && (forall i :: 0 <= i < m ==>
            o.trades[i] == Trade(q[i].id, r.id, q[i].price, o.trades[i].quantity, n + i) && o.trades[i].quantity > 0)
      && (forall i :: 0 <= i < m - 1 ==> o.trades[i].quantity == q[i].remaining)
      && (m > 0 ==> o.trades[m - 1].quantity <= q[m - 1].remaining)
      && o.book.On(r.side.Opposite()) ==
           if m == 0 || o.trades[m - 1].quantity == q[m - 1].remaining then q[m..]
           else [q[m - 1].(remaining := q[m - 1].remaining - o.trades[m - 1].quantity)] + q[m..]
  {
    hide Sweep, CanFill, Slot, Reach, BookOk;
    var q := b.On(r.side.Opposite());
    ReachIsStop(b, r, k);
    assert q[0..] == q;
    SweepIsPriceTimeFill(q, TakerOf(r), r.qty, n);
  }

  /**
   The taker's own side: untouched, unless a limit order rests there, on the terms it was submitted with and
   with the size the reply says, behind every order at its price or better and before every worse one.
   */
  lemma SubmitRests(e: Engine, b: Book, r: Request, n: nat) returns (j: nat)
    requires Good(b)
    ensures var own, o := b.On(r.side), Submit(e, b, r, n);
      var opp := |o.book.On(r.side.Opposite())|;
      && j <= |own|
      && (forall i :: 0 <= i < j ==> if r.side.Buy? then own[i].price >= r.price else own[i].price <= r.price)
      && (forall i :: j <= i < |own| ==> if r.side.Buy? then own[i].price < r.price else own[i].price > r.price)
      && o.book.On(r.side) ==
           if o.result.resting == 0 || (e.Pooled? && |own| + opp >= e.slots) then own
           else own[..j] + [Order(r.id, r.side, r.price, o.result.resting, r.owner, r.tif, r.expiry)] + own[j..]
  {
    hide Sweep, CanFill, BookOk, Uncrossed, DisjointIds;
    var own := b.On(r.side);
    SideOfBook(b, r.side);
    j := Slot(r.side, own, r.price);
    forall i | j <= i < |own|
      ensures if r.side.Buy? then own[i].price < r.price else own[i].price > r.price
    {
      WorseBehind(r.side, own, r.price, i);
    }
  }

  /** Nobody pays more than they bid or sells for less than they asked. */
  lemma NoTradeBeyondPrice(e: Engine, b: Book, r: Request, n: nat, i: nat)
    requires Good(b) && !r.kind.Market? && i < |Submit(e, b, r, n).trades|
    ensures var price := Submit(e, b, r, n).trades[i].price;
      if r.side.Buy? then price <= r.price else price >= r.price
  {
    hide Submit, BookOk;
    var k := SomeStop(b.On(r.side.Opposite()), r);
    SubmitTrades(e, b, r, n, k);
  }

  /** Nobody trades with themselves: no trade names a resting order of the request's owner. */
  lemma NoSelfTrade(e: Engine, b: Book, r: Request, n: nat, i: nat, side: Side, j: nat)
    requires Good(b) && r.owner != 0 && i < |Submit(e, b, r, n).trades|
    requires j < |b.On(side)| && b.On(side)[j].id == Submit(e, b, r, n).trades[i].restingId
    ensures b.On(side)[j].owner != r.owner
  {
    hide Submit, BookOk, Find;
    var opp := r.side.Opposite();
    var k := SomeStop(b.On(opp), r);
    SubmitTrades(e, b, r, n, k);
    LiveAt(b, side, j);
    LiveAt(b, opp, i);
  }

  /**
   Part of a limit order is thrown away exactly when an order of the same non-zero owner stands in its price
   range, with nothing but tradable orders before it, and those hold less than it asks for.
   */
  lemma DiscardedExactlyOnSelfTrade(e: Engine, b: Book, r: Request, n: nat)
    requires Good(b) && r.kind.Limit?
    ensures var q, res := b.On(r.side.Opposite()), Submit(e, b, r, n).result;
      res.filled + res.resting < r.qty <==>
      exists k: nat ::
        && k < |q| && Within(r, q[k].price) && r.owner != 0 && q[k].owner == r.owner
        && (forall i :: 0 <= i < k ==> Within(r, q[i].price) && q[i].owner != r.owner)
        && Total(q[..k]) < r.qty
  {
    hide Submit, BookOk, Total;
    var q := b.On(r.side.Opposite());
    var s := SomeStop(q, r);
    SubmitReplies(e, b, r, n, s);
    if k: nat :|
      && k < |q| && Within(r, q[k].price) && r.owner != 0 && q[k].owner == r.owner
      && (forall i :: 0 <= i < k ==> Within(r, q[i].price) && q[i].owner != r.owner)
      && Total(q[..k]) < r.qty {
      assert s == k;
    }
  }

  // ---------- cancel and modify ----------

  /** Cancel takes out the order with the id, wherever it stands, and touches nothing else. */
  lemma CancelTakesOne(b: Book, side: Side, k: nat)
    requires BookOk(b) && k < |b.On(side)|
    ensures var w := Cancel(b, b.On(side)[k].id);
      && w.On(side) == b.On(side)[..k] + b.On(side)[k + 1..]
      && w.On(side.Opposite()) == b.On(side.Opposite())
  {
    hide BookOk, Find;
    LiveAt(b, side, k);
  }

  lemma CancelMissesOthers(b: Book, id: nat)
    requires forall side, k: nat :: k < |b.On(side)| ==> b.On(side)[k].id != id
    ensures Cancel(b, id) == b && !Live(b, id)
  {
    assert forall k: nat :: k < |b.bids| ==> b.On(Buy)[k].id != id;
    assert forall k: nat :: k < |b.asks| ==> b.On(Sell)[k].id != id;
  }

  /**
   Every modify of the order at place `k`. Size zero takes it out. The same price and no larger size changes
   its size and nothing else. Anything else is taking it out and submitting a limit order of the new price and size
   on its side, for its owner and with its time in force.
   */
  lemma ModifyPlainly(e: Engine, b: Book, side: Side, k: nat, price: int, qty: nat, n: nat)
    requires BookOk(b) && k < |b.On(side)|
    ensures var q := b.On(side);
      var o := q[k];
      var out := b.With(side, q[..k] + q[k + 1..]);
      Modify(e, b, o.id, price, qty, n) ==
        if qty == 0 then Outcome(out, ExecResult(o.id, 0, 0, true, false), [])
        else if price == o.price && qty <= o.remaining then
          Outcome(b.With(side, q[k := o.(remaining := qty)]), ExecResult(o.id, 0, qty, true, false), [])
        else Submit(e, out, Request(o.id, side, Limit, price, qty, o.owner, o.tif, o.expiry), n)
  {
    hide BookOk, Find, Submit;
    LiveAt(b, side, k);
    SideOfBook(b, side);
    CancelTakesOne(b, side, k);
  }

  lemma ModifyOfNone(e: Engine, b: Book, id: nat, price: int, qty: nat, n: nat)
    requires forall side, k: nat :: k < |b.On(side)| ==> b.On(side)[k].id != id
    ensures Modify(e, b, id, price, qty, n) == Outcome(b, ExecResult(0, 0, 0, false, false), [])
  {
    CancelMissesOthers(b, id);
  }

  /** A submitted order that rests is the one asked for, less its fills. */
  lemma RestsAsAsked(e: Engine, b: Book, r: Request, n: nat, j: nat)
    requires Good(b) && r.kind.Limit? && forall i :: 0 <= i < |b.On(r.side)| ==> b.On(r.side)[i].id != r.id
    requires var w := Submit(e, b, r, n).book; j < |w.On(r.side)| && w.On(r.side)[j].id == r.id
    ensures var o := Submit(e, b, r, n);
      && o.result.filled < r.qty && o.result.resting == r.qty - o.result.filled
      && o.book.On(r.side)[j] ==
           Order(r.id, r.side, r.price, r.qty - o.result.filled, r.owner, r.tif, r.expiry)
  {
    hide BookOk, Submit, Positive, Total;
    var own := b.On(r.side);
    var at := SubmitRests(e, b, r, n);
    var s := SomeStop(b.On(r.side.Opposite()), r);
    SubmitReplies(e, b, r, n, s);
    var rested := Order(r.id, r.side, r.price, Submit(e, b, r, n).result.resting, r.owner, r.tif, r.expiry);
    var w := Submit(e, b, r, n).book.On(r.side);
    if w == own[..at] + [rested] + own[at..] {
      assert forall i :: 0 <= i < |w| && i != at ==> w[i] == own[if i < at then i else i - 1];
    }
  }

  /** If the modified order rests afterwards it rests at the price asked for with the size asked for, less its fills. */
  lemma ModifiedRestsAsAsked(e: Engine, b: Book, side: Side, k: nat, price: int, qty: nat, n: nat, j: nat)
    requires Good(b) && k < |b.On(side)|
    requires var o := Modify(e, b, b.On(side)[k].id, price, qty, n);
      j < |o.book.On(side)| && o.book.On(side)[j].id == b.On(side)[k].id
    ensures var o := Modify(e, b, b.On(side)[k].id, price, qty, n);
      && o.result.filled < qty
      && o.book.On(side)[j] == b.On(side)[k].(price := price, remaining := qty - o.result.filled)
  {
    hide BookOk, Submit, Modify, Positive;
    var q, o := b.On(side), b.On(side)[k];
    ModifyPlainly(e, b, side, k, price, qty, n);
    SideOfBook(b, side);
    var out := b.With(side, q[..k] + q[k + 1..]);
    OnlyOne(side, q, k);
    if qty > 0 && price == o.price && qty <= o.remaining {
      assert j == k;
    } else if qty > 0 {
      CancelTakesOne(b, side, k);
      CancelGood(b, o.id);
      assert Cancel(b, o.id).On(side) == out.On(side) && Cancel(b, o.id) == out;
      RestsAsAsked(e, out, Request(o.id, side, Limit, price, qty, o.owner, o.tif, o.expiry), n, j);
    }
  }

  lemma OnlyOne(side: Side, q: seq<Order>, k: nat)
    requires SideOk(side, q) && k < |q|
    ensures forall i :: 0 <= i < |q| && q[i].id == q[k].id ==> i == k
    ensures var w := q[..k] + q[k + 1..]; forall i :: 0 <= i < |w| ==> w[i].id != q[k].id
    ensures q[k].side == side
  {
  }
}
