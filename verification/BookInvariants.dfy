/** Every operation keeps the book sorted, one-sided, uncrossed and free of duplicate ids. */
module BookInvariants {
  import opened Types
  import opened BookSpec
  import opened SweepTheorems

  /** What submit demands: only a limit order can rest, so only it needs a fresh id and a price in range. */
  predicate LegalSubmit(b: Book, r: Request) {
    r.kind.Limit? ==> 0 <= r.price <= MAX_PRICE && !Live(b, r.id)
  }

  predicate LegalModify(b: Book, id: nat, price: int, qty: nat) {
    Live(b, id) && qty > 0 ==> 0 <= price <= MAX_PRICE
  }

  ghost predicate Good(b: Book) {
    BookOk(b) && Positive(b)
  }

  lemma NotLive(b: Book, id: nat)
    requires !Live(b, id)
    ensures forall i :: 0 <= i < |b.bids| ==> b.bids[i].id != id
    ensures forall i :: 0 <= i < |b.asks| ==> b.asks[i].id != id
  {
  }

  lemma LiveAt(b: Book, side: Side, k: nat)
    requires BookOk(b) && k < |b.On(side)|
    ensures Live(b, b.On(side)[k].id)
    ensures SideHolding(b, b.On(side)[k].id) == side
    ensures Find(b.On(side), b.On(side)[k].id) == k
    ensures Lookup(b, b.On(side)[k].id) == b.On(side)[k]
  {
  }

  lemma RemainderSideOk(side: Side, q: seq<Order>, w: seq<Order>)
    requires SideOk(side, q) && IsRemainder(q, w)
    ensures SideOk(side, w)
  {
    var d := |q| - |w|;
    forall i | 0 <= i < |w|
      ensures w[i].side == side && 0 <= w[i].price <= MAX_PRICE
    {
      assert SameKey(w[i], q[d + i]);
    }
    forall i, j | 0 <= i < j < |w|
      ensures NotWorse(side, w[i].price, w[j].price) && w[i].id != w[j].id
    {
      assert SameKey(w[i], q[d + i]) && SameKey(w[j], q[d + j]);
    }
  }

  /** `o`, resting on `side`, neither crosses nor shares an id with any order of the other side. */
  ghost predicate Apart(side: Side, o: Order, other: seq<Order>) {
    forall j :: 0 <= j < |other| ==>
      other[j].id != o.id && if side.Buy? then o.price < other[j].price else other[j].price < o.price
  }

  lemma ApartFromOther(b: Book, side: Side, i: nat)
    requires BookOk(b) && i < |b.On(side)|
    ensures Apart(side, b.On(side)[i], b.On(side.Opposite()))
  {
  }

  /** One side may be replaced by any well-formed side that stays apart from the other. */
  lemma WithOk(b: Book, side: Side, w: seq<Order>)
    requires BookOk(b) && SideOk(side, w)
    requires forall i :: 0 <= i < |w| ==> Apart(side, w[i], b.On(side.Opposite()))
    ensures BookOk(b.With(side, w))
  {
    var c := b.With(side, w);
    if side.Buy? {
      forall i, j | 0 <= i < |c.bids| && 0 <= j < |c.asks|
        ensures c.bids[i].price < c.asks[j].price && c.bids[i].id != c.asks[j].id
      {
        assert Apart(side, w[i], c.asks);
      }
    } else {
      forall i, j | 0 <= i < |c.bids| && 0 <= j < |c.asks|
        ensures c.bids[i].price < c.asks[j].price && c.bids[i].id != c.asks[j].id
      {
        assert Apart(side, w[j], c.bids);
      }
    }
  }

  lemma RemainderBookOk(b: Book, side: Side, w: seq<Order>)
    requires BookOk(b) && IsRemainder(b.On(side), w)
    ensures BookOk(b.With(side, w))
  {
    var q := b.On(side);
    RemainderSideOk(side, q, w);
    forall i | 0 <= i < |w|
      ensures Apart(side, w[i], b.On(side.Opposite()))
    {
      assert SameKey(w[i], q[|q| - |w| + i]);
      ApartFromOther(b, side, |q| - |w| + i);
    }
    WithOk(b, side, w);
  }

  lemma RemainderLive(b: Book, side: Side, w: seq<Order>, id: nat)
    requires IsRemainder(b.On(side), w) && Live(b.With(side, w), id)
    ensures Live(b, id)
  {
    var q := b.On(side);
    var k := Find(w, id);
    if k < |w| {
      assert SameKey(w[k], q[|q| - |w| + k]);
      assert q[|q| - |w| + k].id == id;
    }
  }

  lemma SweepGood(b: Book, r: Request, n: nat)
    requires Good(b)
    ensures Good(AfterSweep(b, r, n))
    ensures AfterSweep(b, r, n).Count() <= b.Count()
    ensures forall id :: Live(AfterSweep(b, r, n), id) ==> Live(b, id)
  {
    var side := r.side.Opposite();
    SweepKeeps(b.On(side), TakerOf(r), r.qty, n);
    RemainderBookOk(b, side, SweepOf(b, r, n).queue);
    forall id | Live(AfterSweep(b, r, n), id)
      ensures Live(b, id)
    {
      RemainderLive(b, side, SweepOf(b, r, n).queue, id);
    }
  }

  lemma InsertAtIndex<T>(q: seq<T>, k: nat, o: T)
    requires k <= |q|
    ensures |InsertAt(q, k, o)| == |q| + 1
    ensures forall i :: 0 <= i <= |q| ==> InsertAt(q, k, o)[i] == if i < k then q[i] else if i == k then o else q[i - 1]
  {
  }

  lemma RemoveAtIndex<T>(q: seq<T>, k: nat)
    requires k < |q|
    ensures |RemoveAt(q, k)| == |q| - 1
    ensures forall i :: 0 <= i < |q| - 1 ==> RemoveAt(q, k)[i] == if i < k then q[i] else q[i + 1]
  {
  }

  /** Inserting between what is at least as good and what is worse keeps a side in order. */
  lemma InsertSideOk(side: Side, q: seq<Order>, o: Order, k: nat)
    requires SideOk(side, q) && k <= |q|
    requires o.side == side && 0 <= o.price <= MAX_PRICE
    requires forall i :: 0 <= i < |q| ==> q[i].id != o.id
    requires forall i :: 0 <= i < k ==> NotWorse(side, q[i].price, o.price)
    requires forall i :: k <= i < |q| ==> NotWorse(side, o.price, q[i].price)
    ensures SideOk(side, InsertAt(q, k, o))
  {
    InsertAtIndex(q, k, o);
    hide InsertAt;
    var w := InsertAt(q, k, o);
    forall i, j | 0 <= i < j < |w|
      ensures NotWorse(side, w[i].price, w[j].price) && w[i].id != w[j].id
    {
    }
  }

  /** Everything from its slot on is no better than the newcomer. */
  lemma SlotDivides(side: Side, q: seq<Order>, price: int, i: nat)
    requires Sorted(side, q) && Slot(side, q, price) <= i < |q|
    ensures NotWorse(side, price, q[i].price)
  {
    var k := Slot(side, q, price);
    assert k < i ==> NotWorse(side, q[k].price, q[i].price);
  }

  lemma NoCrossBeyondTop(side: Side, q: seq<Order>, t: Taker)
    requires SideOk(side, q) && t.side == side.Opposite() && !TopCrosses(q, t)
    ensures forall j :: 0 <= j < |q| ==> !Crosses(t, q[j].price)
  {
    forall j | 0 <= j < |q|
      ensures !Crosses(t, q[j].price)
    {
      assert j > 0 ==> NotWorse(side, q[0].price, q[j].price);
    }
  }

  lemma SideOfBook(b: Book, side: Side)
    requires BookOk(b)
    ensures SideOk(side, b.On(side))
  {
  }

  lemma RestSideOk(side: Side, q: seq<Order>, o: Order)
    requires SideOk(side, q) && o.side == side && 0 <= o.price <= MAX_PRICE
    requires forall i :: 0 <= i < |q| ==> q[i].id != o.id
    ensures SideOk(side, InsertAt(q, Slot(side, q, o.price), o))
  {
    var k := Slot(side, q, o.price);
    forall i | k <= i < |q|
      ensures NotWorse(side, o.price, q[i].price)
    {
      SlotDivides(side, q, o.price, i);
    }
    InsertSideOk(side, q, o, k);
  }

  lemma InsertedApart(b: Book, o: Order, k: nat, i: nat)
    requires BookOk(b) && k <= |b.On(o.side)| && i <= |b.On(o.side)|
    requires Apart(o.side, o, b.On(o.side.Opposite()))
    ensures i < |InsertAt(b.On(o.side), k, o)|
    ensures Apart(o.side, InsertAt(b.On(o.side), k, o)[i], b.On(o.side.Opposite()))
  {
    hide BookOk, Apart;
    InsertAtIndex(b.On(o.side), k, o);
    if i != k {
      ApartFromOther(b, o.side, if i < k then i else i - 1);
    }
  }

  /** Resting an order that does not cross the other side keeps the book in order. */
  lemma RestBookOk(b: Book, o: Order)
    requires BookOk(b)
    requires !Live(b, o.id) && 0 <= o.price <= MAX_PRICE
    requires forall j :: 0 <= j < |b.On(o.side.Opposite())| ==>
               !Crosses(Taker(o.id, o.side, o.price, o.owner), b.On(o.side.Opposite())[j].price)
    ensures BookOk(Rest(b, o))
  {
    NotLive(b, o.id);
    assert Apart(o.side, o, b.On(o.side.Opposite()));
    hide BookOk, Slot, Apart, Live;
    var q := b.On(o.side);
    var k := Slot(o.side, q, o.price);
    SideOfBook(b, o.side);
    RestSideOk(o.side, q, o);
    var w := InsertAt(q, k, o);
    forall i | 0 <= i < |w|
      ensures Apart(o.side, w[i], b.On(o.side.Opposite()))
    {
      InsertedApart(b, o, k, i);
    }
    WithOk(b, o.side, w);
  }

  lemma RestGood(b: Book, o: Order)
    requires Good(b)
    requires !Live(b, o.id) && 0 <= o.price <= MAX_PRICE && o.remaining > 0
    requires !TopCrosses(b.On(o.side.Opposite()), Taker(o.id, o.side, o.price, o.owner))
    ensures Good(Rest(b, o))
    ensures Rest(b, o).Count() == b.Count() + 1
  {
    NoCrossBeyondTop(o.side.Opposite(), b.On(o.side.Opposite()), Taker(o.id, o.side, o.price, o.owner));
    RestBookOk(b, o);
    RestPositive(b.On(o.side), Slot(o.side, b.On(o.side), o.price), o);
  }

  lemma RestPositive(q: seq<Order>, k: nat, o: Order)
    requires k <= |q| && o.remaining > 0 && AllPositive(q)
    ensures AllPositive(InsertAt(q, k, o)) && |InsertAt(q, k, o)| == |q| + 1
  {
    InsertAtIndex(q, k, o);
  }

  lemma SubmitGood(e: Engine, b: Book, r: Request, n: nat)
    requires Good(b) && LegalSubmit(b, r)
    ensures Good(Submit(e, b, r, n).book)
  {
    SweepGood(b, r, n);
    if Rests(b, r, n) {
      var s := SweepOf(b, r, n);
      RestGood(AfterSweep(b, r, n), OrderOf(r, s.remaining));
    }
  }

  lemma RemoveSideOk(side: Side, q: seq<Order>, k: nat)
    requires SideOk(side, q) && k < |q|
    ensures SideOk(side, RemoveAt(q, k))
    ensures forall i :: 0 <= i < |q| - 1 ==> RemoveAt(q, k)[i].id != q[k].id
  {
    RemoveAtIndex(q, k);
  }

  lemma RemoveBookOk(b: Book, side: Side, k: nat)
    requires BookOk(b) && k < |b.On(side)|
    ensures BookOk(b.With(side, RemoveAt(b.On(side), k)))
  {
    RemoveSideOk(side, b.On(side), k);
    RemoveAtIndex(b.On(side), k);
    var w := RemoveAt(b.On(side), k);
    forall i | 0 <= i < |w|
      ensures Apart(side, w[i], b.On(side.Opposite()))
    {
      ApartFromOther(b, side, if i < k then i else i + 1);
    }
    WithOk(b, side, w);
  }

  lemma CancelGood(b: Book, id: nat)
    requires BookOk(b)
    ensures BookOk(Cancel(b, id)) && (Positive(b) ==> Positive(Cancel(b, id)))
    ensures !Live(Cancel(b, id), id)
    ensures Live(b, id) ==> Cancel(b, id).Count() == b.Count() - 1
  {
    if Live(b, id) {
      var side := SideHolding(b, id);
      var k := Find(b.On(side), id);
      RemoveBookOk(b, side, k);
      RemoveSideOk(side, b.On(side), k);
      RemoveAtIndex(b.On(side), k);
    }
  }

  lemma StillLive(b: Book, side: Side, k: nat, id: nat)
    requires k < |b.On(side)| && Live(b, id) && id != b.On(side)[k].id
    ensures Live(b.With(side, RemoveAt(b.On(side), k)), id)
  {
    var q := b.On(side);
    var w := RemoveAt(q, k);
    RemoveAtIndex(q, k);
    var f := Find(q, id);
    if f < |q| {
      assert w[if f < k then f else f - 1].id == id;
    }
  }

  lemma ResizeSideOk(side: Side, q: seq<Order>, k: nat, qty: nat)
    requires SideOk(side, q) && k < |q|
    ensures SideOk(side, q[k := q[k].(remaining := qty)])
  {
    var w := q[k := q[k].(remaining := qty)];
    assert forall i :: 0 <= i < |w| ==> SameKey(w[i], q[i]);
    forall i, j | 0 <= i < j < |w|
      ensures NotWorse(side, w[i].price, w[j].price) && w[i].id != w[j].id
    {
      assert SameKey(w[i], q[i]) && SameKey(w[j], q[j]);
    }
  }

  lemma ResizeGood(b: Book, id: nat, qty: nat)
    requires BookOk(b) && Live(b, id)
    ensures BookOk(Resize(b, id, qty))
    ensures Positive(b) && qty > 0 ==> Positive(Resize(b, id, qty))
  {
    var side := SideHolding(b, id);
    var q := b.On(side);
    var k := Find(q, id);
    ResizeSideOk(side, q, k, qty);
    var w := q[k := q[k].(remaining := qty)];
    forall i | 0 <= i < |w|
      ensures Apart(side, w[i], b.On(side.Opposite()))
    {
      ApartFromOther(b, side, i);
    }
    WithOk(b, side, w);
  }

  lemma ModifyGood(e: Engine, b: Book, id: nat, price: int, qty: nat, n: nat)
    requires Good(b) && LegalModify(b, id, price, qty)
    ensures Good(Modify(e, b, id, price, qty, n).book)
  {
    if Live(b, id) {
      CancelGood(b, id);
      if qty > 0 {
        var o := Lookup(b, id);
        if ShrinksInPlace(o, price, qty) {
          ResizeGood(b, id, qty);
        } else {
          SubmitGood(e, Cancel(b, id), Resubmission(o, price, qty), n);
        }
      }
    }
  }

  lemma LookupId(b: Book, id: nat)
    requires Live(b, id)
    ensures Lookup(b, id).id == id
  {
  }

  lemma NothingToCancel(b: Book, id: nat)
    ensures !Live(b, id) ==> Cancel(b, id) == b
  {
  }

  lemma HeadPositive(b: Book, side: Side)
    requires Positive(b) && b.On(side) != []
    ensures b.On(side)[0].remaining > 0
  {
  }
}
