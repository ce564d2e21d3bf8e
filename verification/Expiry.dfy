/** Time-based removal: what the expiry heap knows about the book, and what a check of the clock removes. */
module Expiries {
  import opened Types
  import opened BookSpec
  import opened SweepTheorems
  import opened BookInvariants
  import opened BookTheorems
  import opened MatchSteps
  import opened PhotonSpec
  import opened Replays
  import opened Renumbering

  datatype ExpiryEntry = ExpiryEntry(expiry: nat, id: nat)

  type Heap = multiset<ExpiryEntry>

  /** The orders a check at `now` should remove. */
  predicate Due(o: Order, now: nat) {
    o.tif.GTD? && 0 < o.expiry <= now
  }

  /** Every order that can expire has an entry. Entries of departed orders may linger. */
  ghost predicate HeapCovers(b: Book, heap: Heap) {
    forall side, i: nat :: i < |b.On(side)| && b.On(side)[i].tif.GTD? && b.On(side)[i].expiry > 0 ==>
      ExpiryEntry(b.On(side)[i].expiry, b.On(side)[i].id) in heap
  }

  /** No entry speaks of a resting order that does not expire, or not then. */
  ghost predicate Honest(b: Book, heap: Heap) {
    forall e, side, i: nat :: e in heap && i < |b.On(side)| && b.On(side)[i].id == e.id ==>
      b.On(side)[i].tif.GTD? && b.On(side)[i].expiry == e.expiry
  }

  // ---------- books whose orders all come from another book ----------

  /** The order was in `b`, on this side, up to its size. */
  ghost predicate CameFrom(o: Order, side: Side, b: Book) {
    exists j: nat :: j < |b.On(side)| && SameKey(o, b.On(side)[j])
  }

  ghost predicate Inherits(w: Book, b: Book) {
    forall side, i: nat :: i < |w.On(side)| ==> CameFrom(w.On(side)[i], side, b)
  }

  lemma InheritsHeap(w: Book, b: Book, heap: Heap)
    requires Inherits(w, b)
    ensures HeapCovers(b, heap) ==> HeapCovers(w, heap)
    ensures Honest(b, heap) ==> Honest(w, heap)
  {
    forall side, i: nat | i < |w.On(side)|
      ensures exists j: nat :: j < |b.On(side)| && SameKey(w.On(side)[i], b.On(side)[j])
    {
      assert CameFrom(w.On(side)[i], side, b);
    }
  }

  lemma InheritsTransitive(x: Book, w: Book, b: Book)
    requires Inherits(x, w) && Inherits(w, b)
    ensures Inherits(x, b)
  {
    forall side, i: nat | i < |x.On(side)|
      ensures CameFrom(x.On(side)[i], side, b)
    {
      assert CameFrom(x.On(side)[i], side, w);
      var j: nat :| j < |w.On(side)| && SameKey(x.On(side)[i], w.On(side)[j]);
      assert CameFrom(w.On(side)[j], side, b);
      var k: nat :| k < |b.On(side)| && SameKey(w.On(side)[j], b.On(side)[k]);
      assert SameKey(x.On(side)[i], b.On(side)[k]);
    }
  }

  lemma RemainderInherits(b: Book, side: Side, w: seq<Order>)
    requires IsRemainder(b.On(side), w)
    ensures Inherits(b.With(side, w), b)
  {
    var c := b.With(side, w);
    forall s, i: nat | i < |c.On(s)|
      ensures CameFrom(c.On(s)[i], s, b)
    {
      if s == side {
        assert SameKey(w[i], b.On(side)[|b.On(side)| - |w| + i]);
      } else {
        assert SameKey(c.On(s)[i], b.On(s)[i]);
      }
    }
  }

  lemma CancelInherits(b: Book, id: nat)
    ensures Inherits(Cancel(b, id), b)
  {
    hide Find;
    var c := Cancel(b, id);
    forall s, i: nat | i < |c.On(s)|
      ensures CameFrom(c.On(s)[i], s, b)
    {
      if !Live(b, id) || s != SideHolding(b, id) {
        assert SameKey(c.On(s)[i], b.On(s)[i]);
      } else {
        var k := Find(b.On(s), id);
        RemoveAtIndex(b.On(s), k);
        assert SameKey(c.On(s)[i], b.On(s)[if i < k then i else i + 1]);
      }
    }
  }

  lemma ResizeInherits(b: Book, id: nat, qty: nat)
    requires Live(b, id)
    ensures Inherits(Resize(b, id, qty), b)
  {
    hide Find;
    var c := Resize(b, id, qty);
    forall s, i: nat | i < |c.On(s)|
      ensures CameFrom(c.On(s)[i], s, b)
    {
      assert SameKey(c.On(s)[i], b.On(s)[i]);
    }
  }

  lemma HeadTakenInherits(b: Book, side: Side, traded: nat)
    requires b.On(side) != [] && traded <= b.On(side)[0].remaining
    ensures Inherits(b.With(side, HeadTaken(b.On(side), traded)), b)
  {
    hide HeadTaken;
    HeadTakenRemainder(b.On(side), traded);
    RemainderInherits(b, side, HeadTaken(b.On(side), traded));
  }

  lemma HeadTakenRemainder(q: seq<Order>, traded: nat)
    requires q != [] && traded <= q[0].remaining
    ensures IsRemainder(q, HeadTaken(q, traded))
  {
    var w := HeadTaken(q, traded);
    var d := |q| - |w|;
    forall i | 0 <= i < |w|
      ensures SameKey(w[i], q[d + i]) && (i > 0 ==> w[i] == q[d + i])
    {
      if d == 0 && i > 0 {
        assert w[i] == q[1..][i - 1];
      }
    }
  }

  // ---------- resting ----------

  /** The entry pushed for an order that comes to rest. */
  function Pushed(o: Order): Heap {
    if o.tif.GTD? && o.expiry > 0 then multiset{ExpiryEntry(o.expiry, o.id)} else multiset{}
  }

  lemma PushedEntry(o: Order)
    ensures Pushed(o) == if o.tif.GTD? && o.expiry > 0 then multiset{ExpiryEntry(o.expiry, o.id)} else multiset{}
  {
  }

  lemma RestCovers(b: Book, o: Order, heap: Heap)
    requires HeapCovers(b, heap)
    ensures HeapCovers(Rest(b, o), heap + Pushed(o))
  {
    hide Slot;
    var w := Rest(b, o);
    var q := b.On(o.side);
    var k := Slot(o.side, q, o.price);
    InsertAtIndex(q, k, o);
    forall side, i: nat | i < |w.On(side)| && w.On(side)[i].tif.GTD? && w.On(side)[i].expiry > 0
      ensures ExpiryEntry(w.On(side)[i].expiry, w.On(side)[i].id) in heap + Pushed(o)
    {
      if side != o.side {
        assert w.On(side)[i] == b.On(side)[i];
      } else if i != k {
        assert w.On(side)[i] == q[if i < k then i else i - 1];
      }
    }
  }

  /** Resting an order keeps the heap honest as long as the heap held nothing false about its id. */
  lemma RestHonest(b: Book, o: Order, heap: Heap)
    requires Honest(b, heap) && !Live(b, o.id)
    requires forall e :: e in heap && e.id == o.id ==> o.tif.GTD? && e.expiry == o.expiry
    ensures Honest(Rest(b, o), heap + Pushed(o))
  {
    hide Slot, Find;
    NotLive(b, o.id);
    var w := Rest(b, o);
    var q := b.On(o.side);
    var k := Slot(o.side, q, o.price);
    InsertAtIndex(q, k, o);
    forall e, side, i: nat | e in heap + Pushed(o) && i < |w.On(side)| && w.On(side)[i].id == e.id
      ensures w.On(side)[i].tif.GTD? && w.On(side)[i].expiry == e.expiry
    {
      assert e in heap || e in Pushed(o);
      if side != o.side {
        assert w.On(side)[i] == b.On(side)[i];
      } else if i != k {
        assert w.On(side)[i] == q[if i < k then i else i - 1];
      }
    }
  }

  // ---------- removing a set of orders ----------

  /** The orders of a side whose ids are not in `dead`, in order. */
  ghost function Keep(q: seq<Order>, dead: set<nat>): seq<Order> {
    if q == [] then []
    else (if q[0].id in dead then [] else [q[0]]) + Keep(q[1..], dead)
  }

  ghost function KeepBook(b: Book, dead: set<nat>): Book {
    Book(Keep(b.bids, dead), Keep(b.asks, dead))
  }

  lemma {:induction false} KeepAll(q: seq<Order>, dead: set<nat>)
    requires forall i :: 0 <= i < |q| ==> q[i].id !in dead
    ensures Keep(q, dead) == q
  {
    if q != [] {
      KeepAll(q[1..], dead);
    }
  }

  lemma {:induction false} KeepIds(q: seq<Order>, dead: set<nat>, id: nat)
    ensures Find(Keep(q, dead), id) < |Keep(q, dead)| <==> Find(q, id) < |q| && id !in dead
  {
    if q != [] {
      KeepIds(q[1..], dead, id);
      if q[0].id in dead {
        assert [] + Keep(q[1..], dead) == Keep(q[1..], dead);
      } else {
        assert Keep(q, dead)[1..] == Keep(q[1..], dead);
      }
    }
  }

  /** Keeping one order fewer is removing it from what was kept. */
  lemma {:induction false} KeepFewer(q: seq<Order>, dead: set<nat>, id: nat)
    requires UniqueIds(q)
    ensures Keep(q, dead + {id}) == Without(Keep(q, dead), id)
  {
    if q == [] {
      assert Without([], id) == [];
    } else {
      hide Without, Find, Keep;
      var k := Keep(q[1..], dead);
      assert forall i :: 0 <= i < |q[1..]| ==> q[1..][i].id == q[i + 1].id;
      KeepFewer(q[1..], dead, id);
      KeepUnfolds(q, dead);
      KeepUnfolds(q, dead + {id});
      if q[0].id !in dead {
        if q[0].id == id {
          KeepOthers(q[1..], dead, id);
          WithoutHead(q[0], k);
        } else {
          WithoutCons(q[0], k, id);
        }
      }
    }
  }

  lemma KeepUnfolds(q: seq<Order>, dead: set<nat>)
    requires q != []
    ensures Keep(q, dead) == if q[0].id in dead then Keep(q[1..], dead) else [q[0]] + Keep(q[1..], dead)
  {
    assert [] + Keep(q[1..], dead) == Keep(q[1..], dead);
  }

  lemma {:induction false} KeepOthers(q: seq<Order>, dead: set<nat>, id: nat)
    requires forall i :: 0 <= i < |q| ==> q[i].id != id
    ensures Keep(q, dead + {id}) == Keep(q, dead)
  {
    if q != [] {
      KeepOthers(q[1..], dead, id);
    }
  }

  lemma WithoutHead(o: Order, q: seq<Order>)
    ensures Without([o] + q, o.id) == q
  {
    assert ([o] + q)[0] == o;
    assert RemoveAt([o] + q, 0) == q;
  }

  lemma WithoutCons(o: Order, q: seq<Order>, id: nat)
    requires o.id != id
    ensures Without([o] + q, id) == [o] + Without(q, id)
  {
    assert ([o] + q)[1..] == q;
    assert Find([o] + q, id) == 1 + Find(q, id);
    if Find(q, id) < |q| {
      assert RemoveAt([o] + q, 1 + Find(q, id)) == [o] + RemoveAt(q, Find(q, id));
    }
  }

  lemma CancelIsWithout(b: Book, id: nat)
    requires BookOk(b)
    ensures Cancel(b, id) == Book(Without(b.bids, id), Without(b.asks, id))
  {
    if IsOn(b, Buy, id) && IsOn(b, Sell, id) {
      assert false;
    }
  }

  lemma KeepCancel(b: Book, dead: set<nat>, id: nat)
    requires BookOk(b) && BookOk(KeepBook(b, dead))
    ensures KeepBook(b, dead + {id}) == Cancel(KeepBook(b, dead), id)
  {
    KeepFewer(b.bids, dead, id);
    KeepFewer(b.asks, dead, id);
    CancelIsWithout(KeepBook(b, dead), id);
  }

  ghost function IdSet(ids: seq<nat>): set<nat> {
    set id | id in ids
  }

  // ---------- popping the heap ----------

  lemma {:induction false} ExpireSnoc(b: Book, gone: seq<nat>, id: nat, n: nat)
    ensures ExpireAll(b, gone + [id]) == Cancel(ExpireAll(b, gone), id)
    ensures ExpireEvents(b, gone + [id], n) ==
            ExpireEvents(b, gone, n) +
            if Live(ExpireAll(b, gone), id)
            then [ExpireEvent(Lookup(ExpireAll(b, gone), id), n + |ExpireEvents(b, gone, n)|)] else []
    decreases |gone|
  {
    hide Cancel, Live, Lookup;
    var all := gone + [id];
    if gone == [] {
      assert all == [id] && [id][1..] == [];
      NothingToCancel(b, id);
    } else {
      assert all[1..] == gone[1..] + [id] && all[0] == gone[0];
      NothingToCancel(b, gone[0]);
      if Live(b, gone[0]) {
        ExpireSnoc(Cancel(b, gone[0]), gone[1..], id, n + 1);
      } else {
        ExpireSnoc(b, gone[1..], id, n);
      }
    }
  }

  /** Cancelling the ids one after the other keeps exactly the orders with other ids. */
  lemma {:induction false} ExpireKeeps(b: Book, gone: seq<nat>)
    requires Good(b)
    ensures ExpireAll(b, gone) == KeepBook(b, IdSet(gone))
    decreases |gone|
  {
    hide BookOk, Keep, Positive;
    if gone == [] {
      KeepAll(b.bids, IdSet(gone));
      KeepAll(b.asks, IdSet(gone));
    } else {
      var init, last := gone[..|gone| - 1], gone[|gone| - 1];
      ExpireKeeps(b, init);
      assert gone == init + [last];
      assert IdSet(gone) == IdSet(init) + {last};
      ExpireSnoc(b, init, last, 0);
      ExpiryReplays(b, init, 0);
      KeepCancel(b, IdSet(init), last);
    }
  }

  lemma {:induction false} ExpireInherits(b: Book, gone: seq<nat>)
    ensures Inherits(ExpireAll(b, gone), b)
    decreases |gone|
  {
    hide Cancel, CameFrom;
    if gone == [] {
      InheritsSelf(b);
    } else {
      CancelInherits(b, gone[0]);
      ExpireInherits(Cancel(b, gone[0]), gone[1..]);
      InheritsTransitive(ExpireAll(b, gone), Cancel(b, gone[0]), b);
    }
  }

  lemma InheritsSelf(b: Book)
    ensures Inherits(b, b)
  {
    forall side, i: nat | i < |b.On(side)|
      ensures CameFrom(b.On(side)[i], side, b)
    {
      assert SameKey(b.On(side)[i], b.On(side)[i]);
    }
  }

  /** The ids whose entries have come due. */
  ghost function DueIds(heap: Heap, now: nat): set<nat> {
    set e | e in heap && e.expiry <= now :: e.id
  }

  /** No due entry names a resting order that is not itself due. */
  ghost predicate NotMisled(b: Book, heap: Heap, now: nat) {
    forall e :: e in heap && e.expiry <= now && Live(b, e.id) ==> Due(Lookup(b, e.id), now)
  }

  /** A check of the clock removed exactly the orders whose time had come. */
  ghost predicate RemovedTheDue(b: Book, after: Book, now: nat) {
    forall id :: Live(b, id) ==> (Live(after, id) <==> !Due(Lookup(b, id), now))
  }

  lemma KeepLive(b: Book, dead: set<nat>, id: nat)
    ensures Live(KeepBook(b, dead), id) <==> Live(b, id) && id !in dead
  {
    KeepIds(b.bids, dead, id);
    KeepIds(b.asks, dead, id);
  }

  /** Removing what the heap says is due removes the due orders exactly when no due entry misleads. */
  lemma ExpiryExact(b: Book, heap: Heap, now: nat)
    requires HeapCovers(b, heap)
    ensures RemovedTheDue(b, KeepBook(b, DueIds(heap, now)), now) <==> NotMisled(b, heap, now)
  {
    hide Keep, Find;
    var dead := DueIds(heap, now);
    var after := KeepBook(b, dead);
    forall id | Live(b, id)
      ensures Live(after, id) <==> id !in dead
      ensures Due(Lookup(b, id), now) ==> id in dead
    {
      KeepLive(b, dead, id);
      var side := SideHolding(b, id);
      var o := b.On(side)[Find(b.On(side), id)];
      assert Lookup(b, id) == o;
      if Due(o, now) {
        assert ExpiryEntry(o.expiry, o.id) in heap;
      }
    }
    if RemovedTheDue(b, after, now) {
      forall e | e in heap && e.expiry <= now && Live(b, e.id)
        ensures Due(Lookup(b, e.id), now)
      {
        assert e.id in dead;
      }
    }
  }

  /** An honest heap never misleads. */
  lemma HonestNotMisled(b: Book, heap: Heap, now: nat)
    requires Honest(b, heap) && forall e :: e in heap ==> e.expiry > 0
    ensures NotMisled(b, heap, now)
  {
    forall e | e in heap && e.expiry <= now && Live(b, e.id)
      ensures Due(Lookup(b, e.id), now)
    {
      var side := SideHolding(b, e.id);
      assert b.On(side)[Find(b.On(side), e.id)].id == e.id;
    }
  }

  // ---------- the heap over commands ----------

  /** What a submit pushes on the heap. */
  function PushedBy(slots: nat, b: Book, r: Request): Heap {
    if ComesToRest(slots, b, r) then Pushed(OrderOf(r, SweepOf(b, r, 0).remaining)) else multiset{}
  }

  function HeapAfter(slots: nat, b: Book, heap: Heap, c: Runs.Command): Heap {
    match c
    case Submission(r) => heap + PushedBy(slots, b, r)
    case Cancellation(_) => heap
    case Modification(id, price, qty) =>
      if Resubmits(b, c) then heap + PushedBy(slots, Cancel(b, id), Resubmission(Lookup(b, id), price, qty)) else heap
  }

  /** What keeps the heap honest: a submitted id either never had an entry, or has the same expiry again. */
  predicate FreshForHeap(heap: Heap, r: Request) {
    forall e :: e in heap && e.id == r.id ==> r.tif.GTD? && e.expiry == r.expiry
  }

  lemma SidePositive(b: Book, side: Side)
    requires Positive(b)
    ensures AllPositive(b.On(side))
  {
  }

  /** A submit, step by step: what it decides after its sweep, and what each decision reports. */
  lemma SubmitOutline(slots: nat, b: Book, r: Request, n: nat)
    ensures Traded(SweepOf(b, r, n).trades) <= r.qty
    ensures var opp, t, o := r.side.Opposite(), TakerOf(r), Submit(Pooled(slots), b, r, n);
      var s, b1 := SweepOf(b, r, n), AfterSweep(b, r, n);
      var room, rests := HasRoom(Pooled(slots), b1), r.kind.Limit? && s.remaining > 0 && !TopCrosses(s.queue, t);
      if r.kind.Fok? && !CanFill(Pooled(slots), b.On(opp), t, r.qty) then
        && o == Outcome(b, ExecResult(r.id, 0, 0, false, false), [])
        && SubmitEvents(slots, b, r, n) == [BookUpdate(Rejected, r.side, r.id, 0, r.price, r.qty, 0, n)]
        && PushedBy(slots, b, r) == multiset{} && NewlyRested(slots, b, Runs.Submission(r)) == 0
      else
        && o.book == (if rests && room then Rest(b1, OrderOf(r, s.remaining)) else b1) && o.trades == s.trades
        && o.result ==
             ExecResult(r.id, r.qty - s.remaining, if rests then s.remaining else 0, true, s.remaining == 0)
        && SubmitEvents(slots, b, r, n) == FillEvents(r.side, s.trades, r.qty) +
             (if rests then RestEvents(r, s.remaining, room, n + |s.trades|) else [])
        && PushedBy(slots, b, r) == (if rests && room then Pushed(OrderOf(r, s.remaining)) else multiset{})
        && NewlyRested(slots, b, Runs.Submission(r)) == if rests && room then 1 else 0
  {
    hide Sweep, Rest, RestEvents, Available;
    SweepConserves(b.On(r.side.Opposite()), TakerOf(r), r.qty, n);
    RestRenumbered(b, r, n, 0);
  }

  /** A submit either rests one new order behind a swept book, or leaves only orders that were there. */
  lemma SubmitShape(slots: nat, b: Book, r: Request, n: nat)
    requires Good(b)
    ensures Inherits(AfterSweep(b, r, 0), b)
    ensures ComesToRest(slots, b, r) ==>
      Submit(Pooled(slots), b, r, n).book == Rest(AfterSweep(b, r, 0), OrderOf(r, SweepOf(b, r, 0).remaining))
    ensures !ComesToRest(slots, b, r) ==> Inherits(Submit(Pooled(slots), b, r, n).book, b)
  {
    hide BookOk, Sweep, Find, Rest, Positive, AllPositive, Inherits, Slot, CanFill;
    SidePositive(b, r.side.Opposite());
    SweepKeeps(b.On(r.side.Opposite()), TakerOf(r), r.qty, 0);
    RemainderInherits(b, r.side.Opposite(), SweepOf(b, r, 0).queue);
    RestRenumbered(b, r, n, 0);
    InheritsSelf(b);
  }

  lemma SubmitHonest(slots: nat, b: Book, heap: Heap, r: Request, n: nat)
    requires Good(b) && LegalSubmit(b, r) && Honest(b, heap)
    requires ComesToRest(slots, b, r) ==> FreshForHeap(heap, r)
    ensures Honest(Submit(Pooled(slots), b, r, n).book, heap + PushedBy(slots, b, r))
  {
    hide Honest, BookOk, Sweep, Pushed, Find, Rest, Positive, AllPositive, Inherits, Slot, Submit;
    SubmitShape(slots, b, r, n);
    SweepGood(b, r, 0);
    assert heap + multiset{} == heap;
    if ComesToRest(slots, b, r) {
      InheritsHeap(AfterSweep(b, r, 0), b, heap);
      RestHonest(AfterSweep(b, r, 0), OrderOf(r, SweepOf(b, r, 0).remaining), heap);
    } else {
      InheritsHeap(Submit(Pooled(slots), b, r, n).book, b, heap);
    }
  }

  lemma SubmitCovers(slots: nat, b: Book, heap: Heap, r: Request, n: nat)
    requires Good(b) && HeapCovers(b, heap)
    ensures HeapCovers(Submit(Pooled(slots), b, r, n).book, heap + PushedBy(slots, b, r))
  {
    hide HeapCovers, BookOk, Sweep, Pushed, Find, Rest, Positive, AllPositive, Inherits, Slot, Submit;
    SubmitShape(slots, b, r, n);
    assert heap + multiset{} == heap;
    if ComesToRest(slots, b, r) {
      InheritsHeap(AfterSweep(b, r, 0), b, heap);
      RestCovers(AfterSweep(b, r, 0), OrderOf(r, SweepOf(b, r, 0).remaining), heap);
    } else {
      InheritsHeap(Submit(Pooled(slots), b, r, n).book, b, heap);
    }
  }

  /** Every command keeps an entry for every order that can expire, and only entries with a time. */
  lemma StaysCovered(slots: nat, s: Runs.State, heap: Heap, c: Runs.Command)
    requires Good(s.book) && HeapCovers(s.book, heap) && forall e :: e in heap ==> e.expiry > 0
    ensures HeapCovers(Runs.Step(Pooled(slots), s, c).0.book, HeapAfter(slots, s.book, heap, c))
    ensures forall e :: e in HeapAfter(slots, s.book, heap, c) ==> e.expiry > 0
  {
    hide BookOk, Find, Cancel, Submit, HeapCovers, Inherits, Positive, ComesToRest;
    var b := s.book;
    match c
    case Submission(r) => SubmitCovers(slots, b, heap, r, s.seqNo);
    case Cancellation(id) =>
      CancelInherits(b, id);
      InheritsHeap(Cancel(b, id), b, heap);
    case Modification(id, price, qty) =>
      CancelInherits(b, id);
      InheritsHeap(Cancel(b, id), b, heap);
      if Live(b, id) && qty > 0 {
        var o := Lookup(b, id);
        if ShrinksInPlace(o, price, qty) {
          ResizeInherits(b, id, qty);
          InheritsHeap(Resize(b, id, qty), b, heap);
        } else {
          CancelGood(b, id);
          SubmitCovers(slots, Cancel(b, id), heap, Resubmission(o, price, qty), s.seqNo);
        }
      }
  }

  /** Every command keeps an honest heap honest, as long as submitted ids are not reused with another expiry. */
  lemma StaysHonest(slots: nat, ticks: nat, s: Runs.State, heap: Heap, c: Runs.Command)
    requires Good(s.book) && Runs.Legal(ticks, s.book, c) && Honest(s.book, heap)
    requires c.Submission? && ComesToRest(slots, s.book, c.r) ==> FreshForHeap(heap, c.r)
    ensures Honest(Runs.Step(Pooled(slots), s, c).0.book, HeapAfter(slots, s.book, heap, c))
  {
    hide Honest, BookOk, Find, Cancel, Submit, Inherits, Positive, ComesToRest;
    var b := s.book;
    match c
    case Submission(r) => SubmitHonest(slots, b, heap, r, s.seqNo);
    case Cancellation(id) =>
      CancelInherits(b, id);
      InheritsHeap(Cancel(b, id), b, heap);
    case Modification(id, price, qty) =>
      CancelInherits(b, id);
      InheritsHeap(Cancel(b, id), b, heap);
      if Live(b, id) && qty > 0 {
        var o := Lookup(b, id);
        if ShrinksInPlace(o, price, qty) {
          ResizeInherits(b, id, qty);
          InheritsHeap(Resize(b, id, qty), b, heap);
        } else {
          CancelGood(b, id);
          LookupHonest(b, heap, id);
          SubmitHonest(slots, Cancel(b, id), heap, Resubmission(o, price, qty), s.seqNo);
        }
      }
  }

  lemma LookupHonest(b: Book, heap: Heap, id: nat)
    requires Live(b, id) && Honest(b, heap)
    ensures Lookup(b, id).id == id
    ensures forall e :: e in heap && e.id == id ==> Lookup(b, id).tif.GTD? && e.expiry == Lookup(b, id).expiry
  {
    var side := SideHolding(b, id);
    assert b.On(side)[Find(b.On(side), id)].id == id;
  }

  /** An honest heap makes every check of the clock exact. */
  lemma HonestExpiry(b: Book, heap: Heap, now: nat)
    requires HeapCovers(b, heap) && Honest(b, heap) && forall e :: e in heap ==> e.expiry > 0
    ensures RemovedTheDue(b, KeepBook(b, DueIds(heap, now)), now)
  {
    ExpiryExact(b, heap, now);
    HonestNotMisled(b, heap, now);
  }

  /** A check of the clock drops the due entries for good. */
  ghost function Later(heap: Heap, now: nat): (rest: Heap)
    ensures forall e :: rest[e] == if e.expiry <= now then 0 else heap[e]
    decreases |heap|
  {
    if exists e :: e in heap && e.expiry <= now then
      var e :| e in heap && e.expiry <= now;
      assert heap == heap[e := 0] + multiset{e}[e := heap[e]];
      Later(heap[e := 0], now)
    else heap
  }

  lemma Listing(ids: set<nat>) returns (gone: seq<nat>)
    ensures IdSet(gone) == ids
    decreases |ids|
  {
    if ids == {} {
      gone := [];
    } else {
      var id :| id in ids;
      gone := Listing(ids - {id});
      gone := gone + [id];
      assert IdSet(gone) == (ids - {id}) + {id};
    }
  }

  /** A check of the clock keeps the book good, the heap covering and the heap honest. */
  lemma ClockKeeps(b: Book, heap: Heap, now: nat)
    requires Good(b)
    ensures var w := KeepBook(b, DueIds(heap, now));
      && Good(w) && w.Count() <= b.Count() && Inherits(w, b)
      && (HeapCovers(b, heap) ==> HeapCovers(w, Later(heap, now)))
      && (Honest(b, heap) ==> Honest(w, Later(heap, now)))
  {
    hide BookOk, Positive, Keep, Find, Inherits;
    var dead := DueIds(heap, now);
    var w := KeepBook(b, dead);
    var gone := Listing(dead);
    ExpireKeeps(b, gone);
    ExpiryReplays(b, gone, 0);
    ExpireInherits(b, gone);
    InheritsHeap(w, b, heap);
    if HeapCovers(b, heap) {
      forall side, i: nat | i < |w.On(side)| && w.On(side)[i].tif.GTD? && w.On(side)[i].expiry > 0
        ensures ExpiryEntry(w.On(side)[i].expiry, w.On(side)[i].id) in Later(heap, now)
      {
        KeptAlive(b.On(side), dead, i);
      }
    }
  }

  /** A kept order is not among the removed. */
  lemma {:induction false} KeptAlive(q: seq<Order>, dead: set<nat>, i: nat)
    requires i < |Keep(q, dead)|
    ensures Keep(q, dead)[i].id !in dead
  {
    if q[0].id in dead {
      assert [] + Keep(q[1..], dead) == Keep(q[1..], dead);
      KeptAlive(q[1..], dead, i);
    } else if i > 0 {
      KeptAlive(q[1..], dead, i - 1);
    }
  }

  lemma HeapMin(heap: Heap) returns (top: ExpiryEntry)
    requires heap != multiset{}
    ensures top in heap && forall e :: e in heap ==> top.expiry <= e.expiry
    decreases |heap|
  {
    var x :| x in heap;
    var rest := heap - multiset{x};
    if rest == multiset{} {
      assert heap == multiset{x};
      top := x;
    } else {
      top := HeapMin(rest);
      if x.expiry < top.expiry {
        top := x;
      }
      assert heap == rest + multiset{x};
    }
  }

  // ---------- a check of the clock in progress ----------

  /** `heap` is what is left of `all` after popping the entries whose ids are in `gone`, all of them due. */
  ghost predicate PoppedSoFar(all: Heap, heap: Heap, gone: seq<nat>, now: nat) {
    && (forall e :: heap[e] <= all[e])
    && (forall e :: e in all && e.expiry > now ==> heap[e] == all[e])
    && (forall e :: e in all && e.expiry <= now ==> e in heap || e.id in gone)
    && (forall id :: id in gone ==> id in DueIds(all, now))
  }

  lemma PopsStart(heap: Heap, now: nat)
    ensures PoppedSoFar(heap, heap, [], now)
  {
  }

  lemma PopOne(all: Heap, heap: Heap, gone: seq<nat>, now: nat, top: ExpiryEntry)
    requires PoppedSoFar(all, heap, gone, now) && top in heap && top.expiry <= now
    ensures PoppedSoFar(all, heap - multiset{top}, gone + [top.id], now)
  {
    assert top in all;
    assert top.id in DueIds(all, now);
    assert top.id in gone + [top.id];
  }

  lemma PopsDone(all: Heap, heap: Heap, gone: seq<nat>, now: nat)
    requires PoppedSoFar(all, heap, gone, now) && forall e :: e in heap ==> e.expiry > now
    ensures IdSet(gone) == DueIds(all, now)
    ensures forall e :: heap[e] == if e.expiry <= now then 0 else all[e]
  {
    forall e
      ensures heap[e] == if e.expiry <= now then 0 else all[e]
    {
      if e.expiry <= now && e in heap {
        assert false;
      }
      if e.expiry > now && e !in all {
        assert heap[e] <= all[e];
      }
    }
  }

  /** An entry whose order is gone can go. */
  lemma PopCovers(w: Book, heap: Heap, top: ExpiryEntry)
    requires HeapCovers(w, heap) && !Live(w, top.id)
    ensures HeapCovers(w, heap - multiset{top})
  {
    NotLive(w, top.id);
    forall side, i: nat | i < |w.On(side)| && w.On(side)[i].tif.GTD? && w.On(side)[i].expiry > 0
      ensures ExpiryEntry(w.On(side)[i].expiry, w.On(side)[i].id) in heap - multiset{top}
    {
      assert w.On(side)[i].id != top.id;
    }
  }

  /** Every due entry will find its order resting, no two the same one. */
  ghost predicate AllHit(b: Book, heap: Heap, now: nat) {
    && (forall e :: e in heap && e.expiry <= now ==> Live(b, e.id) && heap[e] == 1)
    && (forall e, f :: e in heap && f in heap && e.expiry <= now && f.expiry <= now && e.id == f.id ==> e == f)
  }

  lemma AllHitPop(b: Book, heap: Heap, now: nat, top: ExpiryEntry)
    requires top in heap && top.expiry <= now
    ensures AllHit(b, heap, now) ==> Live(b, top.id) && AllHit(Cancel(b, top.id), heap - multiset{top}, now)
  {
    hide Cancel, Live;
    if AllHit(b, heap, now) {
      var rest := heap - multiset{top};
      forall e | e in rest && e.expiry <= now
        ensures Live(Cancel(b, top.id), e.id) && rest[e] == 1
      {
        CancelKeepsLive(b, top.id, e.id);
      }
    }
  }

  lemma CancelKeepsLive(b: Book, id: nat, other: nat)
    requires Live(b, other) && other != id
    ensures Live(Cancel(b, id), other)
  {
    hide Find;
    if Live(b, id) {
      StillLive(b, SideHolding(b, id), Find(b.On(SideHolding(b, id)), id), other);
    }
  }

  lemma ExpireNothing(b: Book, n: nat)
    ensures ExpireAll(b, []) == b && ExpireEvents(b, [], n) == []
  {
  }
}
