/** One turn of a matching loop, as every book performs it. */
module MatchSteps {
  import opened Types
  import opened BookSpec
  import opened BookInvariants

  /** The queue once its oldest order has traded `traded`. */
  function HeadTaken(q: seq<Order>, traded: nat): seq<Order>
    requires q != [] && traded <= q[0].remaining
  {
    if traded == q[0].remaining then q[1..]
    else [q[0].(remaining := q[0].remaining - traded)] + q[1..]
  }

  /** A loop that has printed `done` and stands at `q` with `rem` to go will end as the whole sweep ends. */
  ghost predicate OnCourse(q0: seq<Order>, t: Taker, qty: nat, n0: nat, q: seq<Order>, rem: nat, done: seq<Trade>) {
    var whole, ahead := Sweep(q0, t, qty, n0), Sweep(q, t, rem, n0 + |done|);
    whole.queue == ahead.queue && whole.remaining == ahead.remaining && whole.trades == done + ahead.trades
  }

  lemma CourseStarts(q0: seq<Order>, t: Taker, qty: nat, n0: nat)
    ensures OnCourse(q0, t, qty, n0, q0, qty, [])
  {
  }

  /** One trade with the head keeps the loop on course. */
  lemma CourseStep(q0: seq<Order>, t: Taker, qty: nat, n0: nat, q: seq<Order>, rem: nat, done: seq<Trade>)
    requires OnCourse(q0, t, qty, n0, q, rem, done)
    requires rem > 0 && q != [] && CanTrade(t, q[0])
    ensures var o := q[0];
      var traded := Min(rem, o.remaining);
      OnCourse(q0, t, qty, n0, HeadTaken(q, traded), rem - traded,
               done + [Trade(o.id, t.id, o.price, traded, n0 + |done|)])
  {
    var o := q[0];
    var traded := Min(rem, o.remaining);
    var trade := Trade(o.id, t.id, o.price, traded, n0 + |done|);
    var rest := Sweep(HeadTaken(q, traded), t, rem - traded, n0 + |done| + 1);
    assert Sweep(q, t, rem, n0 + |done|).trades == [trade] + rest.trades;
    assert done + ([trade] + rest.trades) == done + [trade] + rest.trades;
  }

  /** A loop that cannot trade any more has arrived. */
  lemma CourseEnds(q0: seq<Order>, t: Taker, qty: nat, n0: nat, q: seq<Order>, rem: nat, done: seq<Trade>)
    requires OnCourse(q0, t, qty, n0, q, rem, done)
    requires rem == 0 || q == [] || !CanTrade(t, q[0])
    ensures Sweep(q0, t, qty, n0) == Swept(q, rem, done)
  {
    assert done + [] == done;
  }

  lemma HeadResized(b: Book, side: Side, qty: nat)
    requires BookOk(b) && b.On(side) != []
    ensures var o := b.On(side)[0];
      && Live(b, o.id) && Lookup(b, o.id) == o
      && BookOk(Resize(b, o.id, qty))
      && Resize(b, o.id, qty) == b.With(side, [o.(remaining := qty)] + b.On(side)[1..])
  {
    hide BookOk, Find;
    var q := b.On(side);
    LiveAt(b, side, 0);
    ResizeGood(b, q[0].id, qty);
    assert q[0 := q[0].(remaining := qty)] == [q[0].(remaining := qty)] + q[1..];
  }

  lemma HeadCancelled(b: Book, side: Side)
    requires BookOk(b) && b.On(side) != []
    ensures Cancel(b, b.On(side)[0].id) == b.With(side, b.On(side)[1..])
  {
    hide BookOk, Find;
    LiveAt(b, side, 0);
    assert RemoveAt(b.On(side), 0) == b.On(side)[1..];
  }

  /** Resizing the order at the head of a side, and cancelling it when it is down to zero. */
  lemma HeadFilled(b: Book, side: Side, traded: nat)
    requires BookOk(b) && b.On(side) != [] && traded <= b.On(side)[0].remaining
    ensures var o := b.On(side)[0];
      && Live(b, o.id) && Lookup(b, o.id) == o
      && var w := Resize(b, o.id, o.remaining - traded);
      && BookOk(w)
      && b.With(side, HeadTaken(b.On(side), traded)) == if traded == o.remaining then Cancel(w, o.id) else w
  {
    hide BookOk, Find, Cancel, Resize, Lookup, Live;
    var q := b.On(side);
    HeadResized(b, side, q[0].remaining - traded);
    var w := Resize(b, q[0].id, q[0].remaining - traded);
    HeadCancelled(w, side);
    assert w.On(side)[1..] == q[1..];
  }

  lemma HeadTakenPositive(q: seq<Order>, traded: nat)
    requires AllPositive(q) && q != [] && traded <= q[0].remaining
    ensures AllPositive(HeadTaken(q, traded))
  {
  }
}
