/**
 The intrusive price levels as values: each tick's orders are a doubly linked chain through the
 pool's slots, and the level caches its two ends and its total.
 */
module Links {
  import opened Types
  import opened BookSpec
  import opened SweepTheorems
  import opened BookTheorems
  import opened Pools
  import opened Ticks

  datatype PriceLevel = PriceLevel(head: Handle, tail: Handle, total: nat)

  /** An order as it lies in its slot, with its neighbours. */
  datatype Linked = Linked(order: Order, prev: Handle, next: Handle)

  type Slots = seq<Node<Linked>>

  const NO_ORDERS := PriceLevel(NULL, NULL, 0)

  /** The `i`-th order of the queue lies in the `i`-th slot of the chain, linked to its neighbours. */
  ghost predicate NodeOk(nodes: Slots, chain: seq<Handle>, q: seq<Order>, i: nat)
    requires i < |chain| == |q|
  {
    chain[i] < |nodes| && nodes[chain[i]] == Value(Linked(q[i], Before(chain, i), After(chain, i)))
  }

  ghost predicate LevelOk(lv: PriceLevel, nodes: Slots, chain: seq<Handle>, q: seq<Order>, p: int) {
    && |chain| == |q|
    && Distinct(chain)
    && lv == PriceLevel(HeadOf(chain), LastOf(chain), Total(q))
    && (forall i :: 0 <= i < |q| ==> q[i].price == p)
    && (forall i :: 0 <= i < |chain| ==> NodeOk(nodes, chain, q, i))
  }

  ghost predicate LevelsOk(levels: seq<PriceLevel>, nodes: Slots, chains: seq<seq<Handle>>, qs: Queues) {
    && |levels| == |chains| == |qs|
    && forall p :: 0 <= p < |levels| ==> LevelOk(levels[p], nodes, chains[p], qs[p], p)
  }

  /** The orders lying in slots. */
  ghost function OrdersIn(nodes: Slots): (m: map<Handle, Order>)
    ensures forall h :: h in m <==> 0 <= h < |nodes| && nodes[h].Value?
    ensures forall h :: h in m ==> m[h] == nodes[h].value.order
  {
    map h: nat | h < |nodes| && nodes[h].Value? :: nodes[h].value.order
  }

  /** Every order in a slot is on the chain of its own price. */
  ghost predicate Chained(orders: map<Handle, Order>, chains: seq<seq<Handle>>) {
    forall h :: h in orders ==> 0 <= orders[h].price < |chains| && h in chains[orders[h].price]
  }

  /** A slot holds an order exactly when it is not on the free list. */
  ghost predicate Partition(orders: map<Handle, Order>, free: seq<Handle>, n: nat) {
    forall h: nat :: h < n ==> (h in orders <==> h !in free)
  }

  // ---------- one level ----------

  lemma LevelOrder(lv: PriceLevel, nodes: Slots, chain: seq<Handle>, q: seq<Order>, p: int, i: nat)
    requires LevelOk(lv, nodes, chain, q, p) && i < |chain|
    ensures chain[i] in OrdersIn(nodes) && OrdersIn(nodes)[chain[i]] == q[i]
    ensures nodes[chain[i]] == Value(Linked(q[i], Before(chain, i), After(chain, i)))
  {
    assert NodeOk(nodes, chain, q, i);
  }

  lemma LevelFrame(lv: PriceLevel, nodes: Slots, chain: seq<Handle>, q: seq<Order>, p: int, nodes2: Slots)
    requires LevelOk(lv, nodes, chain, q, p) && |nodes2| == |nodes|
    requires forall k :: 0 <= k < |nodes| && nodes[k].Value? && nodes[k].value.order.price == p ==> nodes2[k] == nodes[k]
    ensures LevelOk(lv, nodes2, chain, q, p)
  {
    forall i | 0 <= i < |chain|
      ensures NodeOk(nodes2, chain, q, i)
    {
      assert NodeOk(nodes, chain, q, i);
    }
  }

  /** Slots change only where they are free or hold an order at tick `p`. */
  ghost predicate OnlyTick(nodes: Slots, nodes2: Slots, p: int) {
    && |nodes2| == |nodes|
    && forall k :: 0 <= k < |nodes| && nodes[k].Value? && nodes[k].value.order.price != p ==> nodes2[k] == nodes[k]
  }

  /** A change confined to one tick leaves every other level well linked. */
  lemma OneLevelChanges(levels: seq<PriceLevel>, nodes: Slots, chains: seq<seq<Handle>>, qs: Queues,
                        p: nat, lv: PriceLevel, nodes2: Slots, chain: seq<Handle>, q: seq<Order>)
    requires LevelsOk(levels, nodes, chains, qs) && p < |levels|
    requires OnlyTick(nodes, nodes2, p) && LevelOk(lv, nodes2, chain, q, p)
    ensures LevelsOk(levels[p := lv], nodes2, chains[p := chain], qs[p := q])
  {
    var lvs, cs, ws := levels[p := lv], chains[p := chain], qs[p := q];
    forall r | 0 <= r < |lvs|
      ensures LevelOk(lvs[r], nodes2, cs[r], ws[r], r)
    {
      if r != p {
        LevelFrame(levels[r], nodes, chains[r], qs[r], r, nodes2);
      }
    }
  }

  // ---------- append ----------

  /** The slots after linking `h` behind the tail of `chain`. */
  ghost function AppendNodes(nodes: Slots, chain: seq<Handle>, h: Handle, o: Order): Slots
    requires h < |nodes|
    requires chain != [] ==> LastOf(chain) < |nodes| && nodes[LastOf(chain)].Value?
  {
    if chain == [] then nodes[h := Value(Linked(o, NULL, NULL))]
    else
      var t := LastOf(chain);
      nodes[t := Value(nodes[t].value.(next := h))][h := Value(Linked(o, t, NULL))]
  }

  lemma AppendLevel(lv: PriceLevel, nodes: Slots, chain: seq<Handle>, q: seq<Order>, p: int, h: Handle, o: Order)
    requires LevelOk(lv, nodes, chain, q, p)
    requires h < |nodes| && nodes[h].NextFree? && o.price == p
    ensures chain != [] ==> LastOf(chain) < |nodes| && nodes[LastOf(chain)].Value?
    ensures LevelOk(PriceLevel(HeadOf(chain + [h]), h, lv.total + o.remaining),
                    AppendNodes(nodes, chain, h, o), chain + [h], q + [o], p)
    ensures OnlyTick(nodes, AppendNodes(nodes, chain, h, o), p)
    ensures OrdersIn(AppendNodes(nodes, chain, h, o)) == OrdersIn(nodes)[h := o]
  {
    var c, w := chain + [h], q + [o];
    if chain != [] {
      LevelOrder(lv, nodes, chain, q, p, |chain| - 1);
    }
    var nodes2 := AppendNodes(nodes, chain, h, o);
    TotalAppend(q, [o]);
    assert [o][1..] == [];
    forall i | 0 <= i < |chain|
      ensures chain[i] != h
    {
      LevelOrder(lv, nodes, chain, q, p, i);
    }
    forall i | 0 <= i < |c|
      ensures NodeOk(nodes2, c, w, i)
    {
      if i < |chain| {
        LevelOrder(lv, nodes, chain, q, p, i);
      }
    }
  }

  // ---------- unlink ----------

  /** The slots after the neighbours of the `i`-th order are linked to each other. */
  ghost function UnlinkNodes(nodes: Slots, chain: seq<Handle>, i: nat): Slots
    requires i < |chain| && forall j :: 0 <= j < |chain| ==> chain[j] < |nodes| && nodes[chain[j]].Value?
  {
    var a := if i > 0 then nodes[chain[i - 1] := Value(nodes[chain[i - 1]].value.(next := After(chain, i)))] else nodes;
    if i + 1 < |chain| && a[chain[i + 1]].Value? then
      a[chain[i + 1] := Value(a[chain[i + 1]].value.(prev := Before(chain, i)))]
    else a
  }

  lemma ChainIsValues(lv: PriceLevel, nodes: Slots, chain: seq<Handle>, q: seq<Order>, p: int)
    requires LevelOk(lv, nodes, chain, q, p)
    ensures forall j :: 0 <= j < |chain| ==> chain[j] < |nodes| && nodes[chain[j]].Value?
  {
    forall j | 0 <= j < |chain|
      ensures chain[j] < |nodes| && nodes[chain[j]].Value?
    {
      LevelOrder(lv, nodes, chain, q, p, j);
    }
  }

  lemma DistinctRemove(chain: seq<Handle>, i: nat)
    requires Distinct(chain) && i < |chain|
    ensures Distinct(RemoveAt(chain, i)) && chain[i] !in RemoveAt(chain, i)
    ensures forall h :: h in chain && h != chain[i] ==> h in RemoveAt(chain, i)
  {
    var c := RemoveAt(chain, i);
    assert forall j :: 0 <= j < |c| ==> c[j] == if j < i then chain[j] else chain[j + 1];
    forall h | h in chain && h != chain[i]
      ensures h in c
    {
      var j :| 0 <= j < |chain| && chain[j] == h;
      assert c[if j < i then j else j - 1] == h;
    }
  }

  /** Where each surviving slot of an unlinked level points. */
  lemma UnlinkNode(lv: PriceLevel, nodes: Slots, chain: seq<Handle>, q: seq<Order>, p: int, i: nat, j: nat)
    requires LevelOk(lv, nodes, chain, q, p) && i < |chain| && j < |chain| && j != i
    ensures forall j :: 0 <= j < |chain| ==> chain[j] < |nodes| && nodes[chain[j]].Value?
    ensures UnlinkNodes(nodes, chain, i)[chain[j]] ==
      Value(Linked(q[j],
                   if j == i + 1 then Before(chain, i) else Before(chain, j),
                   if j + 1 == i then After(chain, i) else After(chain, j)))
  {
    ChainIsValues(lv, nodes, chain, q, p);
    LevelOrder(lv, nodes, chain, q, p, j);
    if i > 0 {
      LevelOrder(lv, nodes, chain, q, p, i - 1);
    }
    if i + 1 < |chain| {
      LevelOrder(lv, nodes, chain, q, p, i + 1);
    }
  }

  lemma UnlinkLevel(lv: PriceLevel, nodes: Slots, chain: seq<Handle>, q: seq<Order>, p: int, i: nat, nodes2: Slots)
    requires LevelOk(lv, nodes, chain, q, p) && i < |chain|
    requires forall j :: 0 <= j < |chain| ==> chain[j] < |nodes| && nodes[chain[j]].Value?
    requires |nodes2| == |nodes|
    requires forall j :: 0 <= j < |chain| && j != i ==> nodes2[chain[j]] == UnlinkNodes(nodes, chain, i)[chain[j]]
    ensures lv.total >= q[i].remaining
    ensures LevelOk(PriceLevel(HeadOf(RemoveAt(chain, i)), LastOf(RemoveAt(chain, i)), lv.total - q[i].remaining),
                    nodes2, RemoveAt(chain, i), RemoveAt(q, i), p)
  {
    hide UnlinkNodes, Total;
    var c, w := RemoveAt(chain, i), RemoveAt(q, i);
    TotalRemove(q, i);
    DistinctRemove(chain, i);
    forall k | 0 <= k < |c|
      ensures NodeOk(nodes2, c, w, k)
    {
      var j := if k < i then k else k + 1;
      UnlinkNode(lv, nodes, chain, q, p, i, j);
      assert c[k] == chain[j] && w[k] == q[j];
      assert Before(c, k) == if j == i + 1 then Before(chain, i) else Before(chain, j);
      assert After(c, k) == if j + 1 == i then After(chain, i) else After(chain, j);
    }
  }

  /** Relinking the neighbours leaves each slot's order where it is. */
  lemma UnlinkSlot(lv: PriceLevel, nodes: Slots, chain: seq<Handle>, q: seq<Order>, p: int, i: nat, h: Handle)
    requires LevelOk(lv, nodes, chain, q, p) && i < |chain| && h < |nodes|
    ensures forall j :: 0 <= j < |chain| ==> chain[j] < |nodes| && nodes[chain[j]].Value?
    ensures |UnlinkNodes(nodes, chain, i)| == |nodes|
    ensures var n2 := UnlinkNodes(nodes, chain, i);
      && n2[h].Value? == nodes[h].Value?
      && (nodes[h].Value? ==> n2[h].value.order == nodes[h].value.order)
      && (n2[h] == nodes[h] || (nodes[h].Value? && nodes[h].value.order.price == p))
      && n2[chain[i]] == nodes[chain[i]]
  {
    ChainIsValues(lv, nodes, chain, q, p);
    if i > 0 {
      LevelOrder(lv, nodes, chain, q, p, i - 1);
    }
    if i + 1 < |chain| {
      LevelOrder(lv, nodes, chain, q, p, i + 1);
    }
  }

  /** Relinking the neighbours moves no order and touches only tick `p`. */
  lemma UnlinkOrders(lv: PriceLevel, nodes: Slots, chain: seq<Handle>, q: seq<Order>, p: int, i: nat)
    requires LevelOk(lv, nodes, chain, q, p) && i < |chain|
    ensures forall j :: 0 <= j < |chain| ==> chain[j] < |nodes| && nodes[chain[j]].Value?
    ensures OrdersIn(UnlinkNodes(nodes, chain, i)) == OrdersIn(nodes)
    ensures OnlyTick(nodes, UnlinkNodes(nodes, chain, i), p)
    ensures UnlinkNodes(nodes, chain, i)[chain[i]] == nodes[chain[i]]
  {
    ChainIsValues(lv, nodes, chain, q, p);
    var n2 := UnlinkNodes(nodes, chain, i);
    UnlinkSlot(lv, nodes, chain, q, p, i, chain[i]);
    forall h | 0 <= h < |nodes|
      ensures n2[h].Value? == nodes[h].Value?
      ensures nodes[h].Value? ==> n2[h].value.order == nodes[h].value.order
      ensures n2[h] == nodes[h] || (nodes[h].Value? && nodes[h].value.order.price == p)
    {
      UnlinkSlot(lv, nodes, chain, q, p, i, h);
    }
  }

  // ---------- resize ----------

  lemma ResizeLevel(lv: PriceLevel, nodes: Slots, chain: seq<Handle>, q: seq<Order>, p: int, i: nat, qty: nat)
    requires LevelOk(lv, nodes, chain, q, p) && i < |chain| && qty <= q[i].remaining
    ensures chain[i] < |nodes| && nodes[chain[i]].Value?
    ensures lv.total >= q[i].remaining - qty
    ensures var o := q[i].(remaining := qty);
      var nodes2 := nodes[chain[i] := Value(nodes[chain[i]].value.(order := o))];
      && LevelOk(lv.(total := lv.total - (q[i].remaining - qty)), nodes2, chain, q[i := o], p)
      && OnlyTick(nodes, nodes2, p)
      && OrdersIn(nodes2) == OrdersIn(nodes)[chain[i] := o]
  {
    LevelOrder(lv, nodes, chain, q, p, i);
    TotalResize(q, i, qty);
    TotalRemove(q, i);
    var o := q[i].(remaining := qty);
    var nodes2 := nodes[chain[i] := Value(nodes[chain[i]].value.(order := o))];
    var w := q[i := o];
    forall j | 0 <= j < |chain|
      ensures NodeOk(nodes2, chain, w, j)
    {
      LevelOrder(lv, nodes, chain, q, p, j);
    }
  }
}
