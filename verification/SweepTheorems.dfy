/** Price-time priority, FOK exactness and conservation of one sweep. */
module SweepTheorems {
  import opened Types
  import opened BookSpec

  ghost function Traded(trades: seq<Trade>): nat {
    if trades == [] then 0 else trades[0].quantity + Traded(trades[1..])
  }

  /** Each trade names the order at its position, at that order's own price, and the numbers run on from `n`. */
  ghost predicate InQueueOrder(q: seq<Order>, t: Taker, n: nat, trades: seq<Trade>) {
    && |trades| <= |q|
    && forall i :: 0 <= i < |trades| ==>
         trades[i] == Trade(q[i].id, t.id, q[i].price, trades[i].quantity, n + i)
  }

  /** All trades but the last consume their order; the last takes some of its order. */
  ghost predicate ConsumesAllButLast(q: seq<Order>, trades: seq<Trade>)
    requires |trades| <= |q|
  {
    && (forall i :: 0 <= i < |trades| - 1 ==> trades[i].quantity == q[i].remaining)
    && (trades != [] ==> 0 < trades[|trades| - 1].quantity <= q[|trades| - 1].remaining)
  }

  ghost predicate LastIsFull(q: seq<Order>, trades: seq<Trade>)
    requires |trades| <= |q|
  {
    trades == [] || trades[|trades| - 1].quantity == q[|trades| - 1].remaining
  }

  /** The queue once the trades are applied. */
  ghost function Leftover(q: seq<Order>, trades: seq<Trade>): seq<Order>
    requires |trades| <= |q| && ConsumesAllButLast(q, trades)
  {
    var k := |trades|;
    if LastIsFull(q, trades) then q[k..]
    else [q[k - 1].(remaining := q[k - 1].remaining - trades[k - 1].quantity)] + q[k..]
  }

  /**
   Price-time priority, stated without the sweep. The trades fill a prefix of the reachable orders
   in queue order, each at its resting price; all but the last consume their order; the sweep stops
   short of the requested size only when no reachable order is left; the rest of the queue stands.
   */
  ghost predicate PriceTimeFill(q: seq<Order>, t: Taker, rem: nat, n: nat, s: Swept) {
    && |s.trades| <= Reach(q, t)
    && InQueueOrder(q, t, n, s.trades)
    && ConsumesAllButLast(q, s.trades)
    && Traded(s.trades) + s.remaining == rem
    && (s.remaining > 0 ==> |s.trades| == Reach(q, t) && LastIsFull(q, s.trades))
    && s.queue == Leftover(q, s.trades)
  }

  lemma InQueueOrderStep(q: seq<Order>, t: Taker, n: nat, trades: seq<Trade>)
    requires q != [] && trades != []
    requires trades[0] == Trade(q[0].id, t.id, q[0].price, trades[0].quantity, n)
    ensures InQueueOrder(q, t, n, trades) <==> InQueueOrder(q[1..], t, n + 1, trades[1..])
  {
    if InQueueOrder(q[1..], t, n + 1, trades[1..]) {
      forall i | 1 <= i < |trades|
        ensures trades[i] == Trade(q[i].id, t.id, q[i].price, trades[i].quantity, n + i)
      {
        assert trades[1..][i - 1] == trades[i] && q[1..][i - 1] == q[i];
      }
    }
  }

  lemma ConsumesStep(q: seq<Order>, trades: seq<Trade>)
    requires trades != [] && |trades| <= |q|
    requires trades[0].quantity == q[0].remaining > 0
    ensures ConsumesAllButLast(q, trades) <==> ConsumesAllButLast(q[1..], trades[1..])
    ensures LastIsFull(q, trades) <==> LastIsFull(q[1..], trades[1..])
    ensures ConsumesAllButLast(q, trades) ==> Leftover(q, trades) == Leftover(q[1..], trades[1..])
  {
    var k := |trades|;
    assert q[1..][k - 1..] == q[k..];
    if ConsumesAllButLast(q[1..], trades[1..]) {
      forall i | 0 <= i < k - 1
        ensures trades[i].quantity == q[i].remaining
      {
        if i > 0 {
          assert trades[1..][i - 1] == trades[i] && q[1..][i - 1] == q[i];
        }
      }
    }
  }

  /** A fill that starts by consuming the head goes on as a fill of the tail. */
  lemma PriceTimeFillStep(q: seq<Order>, t: Taker, rem: nat, n: nat, s: Swept)
    requires q != [] && s.trades != [] && CanTrade(t, q[0])
    requires s.trades[0] == Trade(q[0].id, t.id, q[0].price, q[0].remaining, n)
    requires 0 < q[0].remaining <= rem
    ensures PriceTimeFill(q, t, rem, n, s) <==>
            PriceTimeFill(q[1..], t, rem - q[0].remaining, n + 1, s.(trades := s.trades[1..]))
  {
    if |s.trades| <= |q| {
      InQueueOrderStep(q, t, n, s.trades);
      ConsumesStep(q, s.trades);
    }
  }

  lemma {:induction false} SweepIsPriceTimeFill(q: seq<Order>, t: Taker, rem: nat, n: nat)
    requires AllPositive(q)
    ensures PriceTimeFill(q, t, rem, n, Sweep(q, t, rem, n))
  {
    if rem > 0 && q != [] && CanTrade(t, q[0]) {
      var s := Sweep(q, t, rem, n);
      if rem >= q[0].remaining {
        SweepIsPriceTimeFill(q[1..], t, rem - q[0].remaining, n + 1);
        assert s.(trades := s.trades[1..]) == Sweep(q[1..], t, rem - q[0].remaining, n + 1);
        PriceTimeFillStep(q, t, rem, n, s);
      } else {
        OneBite(q, t, rem, n);
      }
    }
  }

  /** A sweep that ends inside the first order. */
  lemma OneBite(q: seq<Order>, t: Taker, rem: nat, n: nat)
    requires q != [] && CanTrade(t, q[0]) && 0 < rem < q[0].remaining
    ensures PriceTimeFill(q, t, rem, n, Sweep(q, t, rem, n))
  {
    var s := Sweep(q, t, rem, n);
    assert s.trades == [Trade(q[0].id, t.id, q[0].price, rem, n)];
    assert s.trades[1..] == [];
    assert Traded(s.trades) == rem;
  }

  lemma PartialFillIsSweep(q: seq<Order>, t: Taker, rem: nat, n: nat, s: Swept)
    requires s.trades != [] && PriceTimeFill(q, t, rem, n, s)
    requires s.trades[0].quantity != q[0].remaining
    ensures s == Sweep(q, t, rem, n)
  {
    assert |s.trades| == 1 && s.trades[1..] == [];
    assert Traded(s.trades) == s.trades[0].quantity + Traded(s.trades[1..]);
    assert s.trades == [Trade(q[0].id, t.id, q[0].price, s.trades[0].quantity, n)];
    assert s.remaining == 0 && rem == s.trades[0].quantity;
  }

  lemma FullFirstFill(q: seq<Order>, t: Taker, rem: nat, n: nat, s: Swept)
    requires AllPositive(q)
    requires s.trades != [] && PriceTimeFill(q, t, rem, n, s)
    requires s.trades[0].quantity == q[0].remaining
    ensures CanTrade(t, q[0]) && 0 < q[0].remaining <= rem
    ensures s.trades[0] == Trade(q[0].id, t.id, q[0].price, q[0].remaining, n)
    ensures s.trades == [s.trades[0]] + s.trades[1..]
  {
    assert Traded(s.trades) == s.trades[0].quantity + Traded(s.trades[1..]);
  }

  /** The characterisation leaves no freedom: only the sweep satisfies it. */
  lemma {:induction false} PriceTimeFillIsSweep(q: seq<Order>, t: Taker, rem: nat, n: nat, s: Swept)
    requires AllPositive(q)
    requires PriceTimeFill(q, t, rem, n, s)
    ensures s == Sweep(q, t, rem, n)
    decreases |q|
  {
    if s.trades == [] {
      assert s == Swept(q, rem, []);
    } else if s.trades[0].quantity != q[0].remaining {
      PartialFillIsSweep(q, t, rem, n, s);
    } else {
      FullFirstFill(q, t, rem, n, s);
      PriceTimeFillStep(q, t, rem, n, s);
      PriceTimeFillIsSweep(q[1..], t, rem - q[0].remaining, n + 1, s.(trades := s.trades[1..]));
    }
  }

  /** A sweep is the one price-time fill of its queue. */
  lemma PriceTimePriority(q: seq<Order>, t: Taker, rem: nat, n: nat, s: Swept)
    requires AllPositive(q)
    ensures PriceTimeFill(q, t, rem, n, s) <==> s == Sweep(q, t, rem, n)
  {
    SweepIsPriceTimeFill(q, t, rem, n);
    if PriceTimeFill(q, t, rem, n, s) {
      PriceTimeFillIsSweep(q, t, rem, n, s);
    }
  }

  lemma {:induction false} AvailableStep(q: seq<Order>, t: Taker)
    requires q != [] && CanTrade(t, q[0])
    ensures Available(q, t) == q[0].remaining + Available(q[1..], t)
  {
    var k := Reach(q[1..], t);
    assert q[..1 + k][1..] == q[1..][..k];
  }

  /** What a sweep fills is the requested size or everything reachable, whichever is smaller. */
  lemma {:induction false} SweepFills(q: seq<Order>, t: Taker, rem: nat, n: nat)
    requires AllPositive(q)
    ensures rem - Sweep(q, t, rem, n).remaining == Min(rem, Available(q, t))
    ensures Traded(Sweep(q, t, rem, n).trades) == rem - Sweep(q, t, rem, n).remaining
  {
    SweepIsPriceTimeFill(q, t, rem, n);
    if rem > 0 && q != [] && CanTrade(t, q[0]) {
      AvailableStep(q, t);
      if rem >= q[0].remaining {
        SweepFills(q[1..], t, rem - q[0].remaining, n + 1);
      }
    }
  }

  /** The FOK pre-check of either engine answers exactly whether the sweep would leave nothing. */
  lemma FokExact(e: Engine, q: seq<Order>, t: Taker, qty: nat, n: nat)
    requires AllPositive(q) && qty > 0
    ensures CanFill(e, q, t, qty) <==> Sweep(q, t, qty, n).remaining == 0
  {
    SweepFills(q, t, qty, n);
    if Available(q, t) > 0 {
      assert Reach(q, t) > 0;
    }
  }

  /** For size zero the engines part ways, and only there: one demands a crossing top of book. */
  lemma FokPreChecksAgree(slots: nat, q: seq<Order>, t: Taker, qty: nat)
    ensures CanFill(Reference, q, t, qty) == CanFill(Pooled(slots), q, t, qty) <==> qty > 0 || TopCrosses(q, t)
  {
    assert Reach(q, t) > 0 ==> TopCrosses(q, t);
  }

  /** The same order up to its size. */
  predicate SameKey(a: Order, b: Order) {
    a == b.(remaining := a.remaining)
  }

  /** `w` is what is left of `q` after its first `|q| - |w|` orders, the first order left possibly smaller. */
  ghost predicate IsRemainder(q: seq<Order>, w: seq<Order>) {
    && |w| <= |q|
    && (forall i :: 0 <= i < |w| ==> SameKey(w[i], q[|q| - |w| + i]))
    && (forall i :: 1 <= i < |w| ==> w[i] == q[|q| - |w| + i])
  }

  /** A sweep leaves a remainder of its queue, and a strict one when it traded but was not exhausted. */
  lemma {:induction false} SweepKeeps(q: seq<Order>, t: Taker, rem: nat, n: nat)
    requires AllPositive(q)
    ensures var s := Sweep(q, t, rem, n);
      && IsRemainder(q, s.queue)
      && AllPositive(s.queue)
      && (s.trades == [] ==> s.queue == q && s.remaining == rem)
      && (s.trades != [] && s.remaining > 0 ==> |s.queue| < |q|)
  {
    SweepIsPriceTimeFill(q, t, rem, n);
    var s := Sweep(q, t, rem, n);
    LeftoverIsRemainder(q, s.trades);
  }

  lemma LeftoverIsRemainder(q: seq<Order>, trades: seq<Trade>)
    requires AllPositive(q)
    requires |trades| <= |q| && ConsumesAllButLast(q, trades)
    ensures IsRemainder(q, Leftover(q, trades)) && AllPositive(Leftover(q, trades))
    ensures trades == [] ==> Leftover(q, trades) == q
    ensures trades != [] && LastIsFull(q, trades) ==> |Leftover(q, trades)| < |q|
  {
    var w, k := Leftover(q, trades), |trades|;
    var d := |q| - |w|;
    assert d == if LastIsFull(q, trades) then k else k - 1;
    forall i | 0 <= i < |w|
      ensures w[i] == if i == 0 && !LastIsFull(q, trades) then w[0] else q[d + i]
      ensures SameKey(w[i], q[d + i]) && w[i].remaining > 0
    {
      hide ConsumesAllButLast;
      assert q[d + i].remaining > 0;
    }
  }

  lemma {:induction false} TotalAppend(a: seq<Order>, b: seq<Order>)
    ensures Total(a + b) == Total(a) + Total(b)
  {
    if a == [] {
      assert a + b == b;
    } else {
      TotalAppend(a[1..], b);
      assert (a + b)[1..] == a[1..] + b;
    }
  }

  /** Size is neither made nor lost: what leaves the queue is what the trades report. */
  lemma {:induction false} SweepConserves(q: seq<Order>, t: Taker, rem: nat, n: nat)
    ensures var s := Sweep(q, t, rem, n);
            Total(q) == Total(s.queue) + Traded(s.trades) && Traded(s.trades) + s.remaining == rem
  {
    if rem > 0 && q != [] && CanTrade(t, q[0]) {
      var s := Sweep(q, t, rem, n);
      if rem >= q[0].remaining {
        SweepConserves(q[1..], t, rem - q[0].remaining, n + 1);
        assert s.trades[1..] == Sweep(q[1..], t, rem - q[0].remaining, n + 1).trades;
      } else {
        assert s.queue[1..] == q[1..];
        assert s.trades[1..] == [];
      }
    }
  }

  /** A sweep that leaves a remainder stopped at an order it may not trade with, or emptied the side. */
  lemma {:induction false} SweepStops(q: seq<Order>, t: Taker, rem: nat, n: nat)
    ensures var s := Sweep(q, t, rem, n);
            s.remaining > 0 && s.queue != [] ==> !CanTrade(t, s.queue[0])
  {
    if rem > 0 && q != [] && CanTrade(t, q[0]) && rem >= q[0].remaining {
      SweepStops(q[1..], t, rem - q[0].remaining, n + 1);
    }
  }

  /** Two limits that cross the same orders of a queue sweep it alike. */
  lemma {:induction false} SweepSameLimit(q: seq<Order>, t: Taker, u: Taker, rem: nat, n: nat)
    requires t.id == u.id && t.owner == u.owner
    requires forall i :: 0 <= i < |q| ==> Crosses(t, q[i].price) == Crosses(u, q[i].price)
    ensures Sweep(q, t, rem, n) == Sweep(q, u, rem, n)
    ensures Reach(q, t) == Reach(q, u)
  {
    if q != [] {
      SweepSameLimit(q[1..], t, u, if rem >= q[0].remaining then rem - q[0].remaining else 0, n + 1);
    }
  }
}
