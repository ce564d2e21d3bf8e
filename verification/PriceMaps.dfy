/** One side of the reference book: a map from price to FIFO, and the priority sequence it stands for. */
module PriceMaps {
  import opened Types
  import opened BookSpec
  import opened Ticks
  import opened LadderSteps

  type PriceMap = map<int, seq<Order>>

  ghost predicate MapOk(m: PriceMap, side: Side) {
    forall p :: p in m ==>
      && 0 <= p <= MAX_PRICE && m[p] != []
      && forall i :: 0 <= i < |m[p]| ==> m[p][i].price == p && m[p][i].side == side
  }

  function At(m: PriceMap, p: int): seq<Order> {
    if p in m then m[p] else []
  }

  /** The map with one level replaced; an empty level is erased. */
  function Put(m: PriceMap, p: int, q: seq<Order>): PriceMap {
    if q == [] then m - {p} else m[p := q]
  }

  /** The map spread out over every tick. */
  ghost function Spread(m: PriceMap): (qs: Queues)
    ensures |qs| == MAX_PRICE + 1
    ensures forall p :: 0 <= p <= MAX_PRICE ==> qs[p] == At(m, p)
  {
    seq(MAX_PRICE + 1, p => At(m, p))
  }

  ghost function Line(m: PriceMap, side: Side): seq<Order> {
    Flat(Spread(m), side, 0)
  }

  // ---------- first and last key ----------

  lemma {:induction false} HasMin(s: set<int>) returns (k: int)
    requires |s| > 0
    ensures k in s && forall j :: j in s ==> k <= j
  {
    assert s != {};
    if forall x :: x !in s {
      assert false;
    }
    var x: int :| x in s;
    if s == {x} {
      k := x;
    } else {
      assert s == (s - {x}) + {x};
      var y := HasMin(s - {x});
      k := if x <= y then x else y;
      assert forall j :: j in s ==> j == x || j in s - {x};
    }
  }

  lemma {:induction false} HasMax(s: set<int>) returns (k: int)
    requires |s| > 0
    ensures k in s && forall j :: j in s ==> k >= j
  {
    assert s != {};
    if forall x :: x !in s {
      assert false;
    }
    var x: int :| x in s;
    if s == {x} {
      k := x;
    } else {
      assert s == (s - {x}) + {x};
      var y := HasMax(s - {x});
      k := if x >= y then x else y;
      assert forall j :: j in s ==> j == x || j in s - {x};
    }
  }

  lemma MapHasKey(m: PriceMap)
    requires m != map[]
    ensures |m.Keys| > 0
  {
    assert m.Keys != {};
  }

  function FirstKey(m: PriceMap): (k: int)
    requires m != map[]
    ensures k in m && forall j :: j in m ==> k <= j
  {
    assert exists k :: k in m.Keys && forall j :: j in m.Keys ==> k <= j by {
      MapHasKey(m);
      var k := HasMin(m.Keys);
    }
    var k :| k in m.Keys && forall j :: j in m.Keys ==> k <= j;
    k
  }

  function LastKey(m: PriceMap): (k: int)
    requires m != map[]
    ensures k in m && forall j :: j in m ==> k >= j
  {
    assert exists k :: k in m.Keys && forall j :: j in m.Keys ==> k >= j by {
      MapHasKey(m);
      var k := HasMax(m.Keys);
    }
    var k :| k in m.Keys && forall j :: j in m.Keys ==> k >= j;
    k
  }

  /** The best price of a non-empty side. */
  function BestKey(m: PriceMap, side: Side): (k: int)
    requires m != map[]
    ensures k in m && forall j :: j in m ==> NotWorse(side, k, j)
  {
    if side.Sell? then FirstKey(m) else LastKey(m)
  }

  // ---------- the line of a map ----------

  lemma SpreadPut(m: PriceMap, p: int, q: seq<Order>)
    requires 0 <= p <= MAX_PRICE
    ensures Spread(Put(m, p, q)) == Spread(m)[p := q]
  {
    assert forall r :: 0 <= r <= MAX_PRICE ==> Spread(Put(m, p, q))[r] == Spread(m)[p := q][r];
  }

  lemma SpreadPriced(m: PriceMap, side: Side)
    requires MapOk(m, side)
    ensures Priced(Spread(m))
    ensures forall p :: 0 <= p <= MAX_PRICE ==> Holds(Spread(m)[p], side)
  {
  }

  /** Replacing one level replaces one stretch of the line. */
  lemma MapSplice(m: PriceMap, side: Side, p: int, q: seq<Order>) returns (a: seq<Order>, c: seq<Order>)
    requires MapOk(m, side) && 0 <= p <= MAX_PRICE && Holds(q, side)
    ensures Line(m, side) == a + At(m, p) + c
    ensures Line(Put(m, p, q), side) == a + q + c
    ensures AllBetter(side, a, p) && AllWorse(side, c, p)
  {
    SpreadPriced(m, side);
    SpreadPut(m, p, q);
    a, c := Splice(Spread(m), side, p, q);
  }

  lemma PutOk(m: PriceMap, side: Side, p: int, q: seq<Order>)
    requires MapOk(m, side) && 0 <= p <= MAX_PRICE
    requires forall i :: 0 <= i < |q| ==> q[i].price == p && q[i].side == side
    ensures MapOk(Put(m, p, q), side)
  {
  }

  /** The line starts with the level at the best key. */
  lemma LineStart(m: PriceMap, side: Side)
    requires MapOk(m, side)
    ensures m == map[] <==> Line(m, side) == []
    ensures BestPrice(Line(m, side)) == if m == map[] then -1 else BestKey(m, side)
    ensures m != map[] ==> Line(m, side) == m[BestKey(m, side)] + Line(m - {BestKey(m, side)}, side)
  {
    hide Line;
    if m == map[] {
      EmptyLine(side);
    } else {
      var k := BestKey(m, side);
      var a, c := MapSplice(m, side, k, []);
      LineBounded(m, side, k);
      assert [] + m[k] + c == m[k] + c;
      assert [] + [] + c == c;
    }
  }

  lemma EmptyLine(side: Side)
    ensures Line(map[], side) == []
  {
    EmptyFlat(Spread(map[]), side, 0);
  }

  /** No order of the line is better than the best key. */
  lemma LineBounded(m: PriceMap, side: Side, k: int)
    requires MapOk(m, side) && forall j :: j in m ==> NotWorse(side, k, j)
    ensures forall i :: 0 <= i < |Line(m, side)| ==> NotWorse(side, k, Line(m, side)[i].price)
  {
    forall i | 0 <= i < |Line(m, side)|
      ensures NotWorse(side, k, Line(m, side)[i].price)
    {
      var p, j := FlatSource(Spread(m), side, 0, i);
      assert p in m;
    }
  }

  // ---------- the operations on maps ----------

  /** push_back at an order's price is resting. */
  lemma PushRests(m: PriceMap, side: Side, o: Order)
    requires MapOk(m, side) && 0 <= o.price <= MAX_PRICE && o.side == side
    ensures MapOk(Put(m, o.price, At(m, o.price) + [o]), side)
    ensures Line(Put(m, o.price, At(m, o.price) + [o]), side) ==
            InsertAt(Line(m, side), Slot(side, Line(m, side), o.price), o)
  {
    hide Flat, Slot;
    var p, q := o.price, At(m, o.price);
    PutOk(m, side, p, q + [o]);
    var a, c := MapSplice(m, side, p, q + [o]);
    SlotAfter(side, a + q, c, p);
    SpliceInsert(a, q, c, o);
  }

  /** Erasing the `i`-th order of a level removes one order of the line. */
  lemma EraseAt(m: PriceMap, side: Side, p: int, i: nat) returns (k: nat)
    requires MapOk(m, side) && p in m && i < |m[p]|
    ensures k < |Line(m, side)| && Line(m, side)[k] == m[p][i]
    ensures MapOk(Put(m, p, RemoveAt(m[p], i)), side)
    ensures Line(Put(m, p, RemoveAt(m[p], i)), side) == RemoveAt(Line(m, side), k)
  {
    hide Flat;
    var w := RemoveAt(m[p], i);
    assert forall j :: 0 <= j < |w| ==> w[j] == m[p][if j < i then j else j + 1];
    PutOk(m, side, p, w);
    var a, c := MapSplice(m, side, p, w);
    SpliceRemove(a, m[p], c, i);
    k := |a| + i;
  }

  /** Giving the `i`-th order of a level a new size does so in the line. */
  lemma UpdateAt(m: PriceMap, side: Side, p: int, i: nat, qty: nat) returns (k: nat)
    requires MapOk(m, side) && p in m && i < |m[p]|
    ensures k < |Line(m, side)| && Line(m, side)[k] == m[p][i]
    ensures var o := m[p][i].(remaining := qty);
      MapOk(m[p := m[p][i := o]], side) && Line(m[p := m[p][i := o]], side) == Line(m, side)[k := o]
  {
    hide Flat;
    var o := m[p][i].(remaining := qty);
    var w := m[p][i := o];
    PutOk(m, side, p, w);
    var a, c := MapSplice(m, side, p, w);
    SpliceUpdate(a, m[p], c, i, o);
    k := |a| + i;
  }

  /** An order of the line sits in the level of its price. */
  lemma LevelHolds(m: PriceMap, side: Side, k: nat) returns (i: nat)
    requires MapOk(m, side) && k < |Line(m, side)|
    ensures var o := Line(m, side)[k];
      && o.price in m && i < |m[o.price]| && m[o.price][i] == o
  {
    var p, j := FlatSource(Spread(m), side, 0, k);
    assert p in m;
    i := j;
  }

  /** An order of a level is in the line. */
  lemma LineHolds(m: PriceMap, side: Side, p: int, i: nat) returns (k: nat)
    requires MapOk(m, side) && p in m && i < |m[p]|
    ensures k < |Line(m, side)| && Line(m, side)[k] == m[p][i]
  {
    hide Flat;
    var a, c := MapSplice(m, side, p, []);
    k := |a| + i;
  }

  lemma LineSize(m: PriceMap, side: Side, p: int)
    requires MapOk(m, side)
    ensures SizeAt(Line(m, side), p) == Total(At(m, p))
  {
    hide Total, SizeAt, BestPrice;
    SpreadPriced(m, side);
    if 0 <= p <= MAX_PRICE {
      SizeAtTick(Spread(m), side, p);
    } else {
      FlatPrices(Spread(m), side, 0);
      SizeAtAll(Line(m, side), p);
      EmptyTotal();
    }
  }
}
