/** Short runs from the empty book into every corner the theorems speak of. */
module Corners {
  import opened Types
  import opened BookSpec
  import opened BookTheorems
  import opened Runs
  import opened Replays
  import opened Expiries
  import opened Stories
  import opened Bits
  import FlatTables

  function Bid(id: nat, price: int, tif: TimeInForce, expiry: nat): Request {
    Request(id, Buy, Limit, price, 5, 0, tif, expiry)
  }

  function Resting(r: Request): Order {
    OrderOf(r, r.qty)
  }

  /** A first bid just rests. */
  lemma FirstBid(e: Engine, r: Request, n: nat)
    requires r.kind.Limit? && r.side.Buy? && r.qty > 0 && (e.Pooled? ==> e.slots > 0)
    ensures Submit(e, Book([], []), r, n).book == Book([Resting(r)], []) && Submit(e, Book([], []), r, n).trades == []
    ensures Rests(Book([], []), r, n) && SweepOf(Book([], []), r, n) == Swept([], r.qty, [])
  {
    assert InsertAt([], 0, Resting(r)) == [Resting(r)];
  }

  /** A lone order found and taken out. */
  lemma OneBid(o: Order)
    requires o.side.Buy?
    ensures var b := Book([o], []);
      && Live(b, o.id) && Lookup(b, o.id) == o && Cancel(b, o.id) == Book([], [])
      && forall id :: id != o.id ==> !Live(b, id)
  {
    var b := Book([o], []);
    assert b.bids[1..] == [];
    assert Find(b.bids, o.id) == 0;
    assert RemoveAt(b.bids, 0) == [];
  }

  lemma NoOrders(id: nat)
    ensures !Live(Book([], []), id)
  {
  }

  /** Two bids and one slot: the second is dropped. */
  lemma FullPool()
    ensures var cmds := [Submission(Bid(1, 10, GTC, 0)), Submission(Bid(2, 9, GTC, 0))];
      LegalRun(Reference, 100, cmds) && !FitsRun(1, cmds) && !InLockstep(1, cmds)
  {
    hide Submit, Find, NoSlot;
    var a, c := Bid(1, 10, GTC, 0), Bid(2, 9, GTC, 0);
    var one, cmds := [Submission(a)], [Submission(a), Submission(c)];
    assert AllButLast(cmds) == one && AllButLast(one) == [];
    FirstBid(Reference, a, 0);
    NoOrders(1);
    OneBid(Resting(a));
    var b := StateAfter(Reference, one).book;
    assert StateAfter(Reference, []) == EMPTY;
    assert b == Book([Resting(a)], []);
    assert Legal(100, EMPTY.book, Submission(a)) && Legal(100, b, Submission(c));
    assert LegalRun(Reference, 100, []) && LegalRun(Reference, 100, one);
    SecondBidFindsNoSlot(Resting(a), c);
    LockstepExactly(1, 100, cmds);
  }

  lemma SecondBidFindsNoSlot(o: Order, r: Request)
    requires r.side.Buy? && r.kind.Limit? && r.qty > 0
    ensures NoSlot(Book([o], []), 1, r)
  {
  }

  /** A fill-or-kill of size zero on the empty book: the reference accepts it, the pooled book does not. */
  lemma ZeroFillOrKill(slots: nat)
    ensures var cmds := [Submission(Request(1, Buy, Fok, 10, 0, 0, GTC, 0))];
      LegalRun(Reference, 100, cmds) && !FitsRun(slots, cmds) && !InLockstep(slots, cmds)
  {
    hide Submit, Step, Find;
    var r := Request(1, Buy, Fok, 10, 0, 0, GTC, 0);
    var cmds := [Submission(r)];
    assert AllButLast(cmds) == [];
    assert StateAfter(Reference, []) == EMPTY;
    assert ZeroFok(EMPTY.book, r) && Legal(100, EMPTY.book, Submission(r));
    assert LegalRun(Reference, 100, []) && !Fits(slots, EMPTY.book, Submission(r));
    LockstepExactly(slots, 100, cmds);
  }

  /** A bid moved to another price: the stream says nothing about the order taken out. */
  lemma MovedBid()
    ensures var hs := [Command(Submission(Bid(1, 10, GTC, 0))), Command(Modification(1, 11, 5))];
      LegalHistory(8, 100, hs) && !ToldInFull(8, hs) && !AlwaysRebuilds(8, hs)
  {
    hide Submit, Find, EventsOf, Live, Lookup;
    var a := Bid(1, 10, GTC, 0);
    var one, hs := [Command(Submission(a))], [Command(Submission(a)), Command(Modification(1, 11, 5))];
    assert AllButLast(hs) == one && AllButLast(one) == [];
    FirstBid(Pooled(8), a, 0);
    NoOrders(1);
    OneBid(Resting(a));
    assert Replays.After(8, []) == EMPTY;
    var b := Replays.After(8, one).book;
    assert b == Book([Resting(a)], []);
    assert Legal(100, EMPTY.book, Submission(a)) && Legal(100, b, Modification(1, 11, 5));
    assert LegalHistory(8, 100, []) && LegalHistory(8, 100, one);
    RebuildsExactly(8, 100, hs);
  }

  /** An id used for an order with a time, cancelled, used again for one without: at that time the check takes it. */
  lemma ReusedId()
    ensures var ms := [Do(Submission(Bid(7, 50, GTD, 100))), Do(Cancellation(7)), Do(Submission(Bid(7, 50, GTC, 0)))];
      var s := StandAfter(8, ms);
      && LegalStory(8, 100, ms) && s.book == Book([Resting(Bid(7, 50, GTC, 0))], [])
      && Haunted(8, ms, 100) && !RemovedTheDue(s.book, NextStand(8, s, Clock(100)).book, 100)
  {
    hide Submit, Find, Live, Lookup, StandAfter, LegalStory, Cancel, RemovedTheDue, KeepBook, DueIds, SweepOf, AfterSweep;
    var a, c := Bid(7, 50, GTD, 100), Bid(7, 50, GTC, 0);
    var m0, m1, m2 := Do(Submission(a)), Do(Cancellation(7)), Do(Submission(c));
    var ms := [m0, m1, m2];
    var one, two := [m0], [m0, m1];
    StoryOpens(8, 100);
    StoryGrows(8, 100, [], m0);
    StoryGrows(8, 100, one, m1);
    StoryGrows(8, 100, two, m2);
    assert [] + [m0] == one && one + [m1] == two && two + [m2] == ms;
    FirstBid(Pooled(8), a, 0);
    FirstBid(Pooled(8), c, 0);
    NoOrders(7);
    OneBid(Resting(a));
    OneBid(Resting(c));
    FirstComesToRest(8, a);
    FirstComesToRest(8, c);
    assert StandAfter(8, one).book == Book([Resting(a)], []);
    assert StandAfter(8, two).book == Book([], []);
    assert StandAfter(8, ms).book == Book([Resting(c)], []);
    assert ms[..0] == [] && ms[..2] == two;
    assert RestedAt(8, ms, 0) && RestedAt(8, ms, 2);
    assert HauntedBy(8, ms, 100, 0, 2);
    ExpiryExactly(8, 100, ms, 100);
  }

  lemma StoryOpens(slots: nat, ticks: nat)
    ensures StandAfter(slots, []) == Stand(Book([], []), multiset{}) && LegalStory(slots, ticks, [])
  {
  }

  lemma FirstComesToRest(slots: nat, r: Request)
    requires r.kind.Limit? && r.side.Buy? && r.qty > 0 && slots > 0
    ensures ComesToRest(slots, Book([], []), r)
  {
    FirstBid(Pooled(slots), r, 0);
  }

  // ---------- a key stored twice ----------

  type Table = FlatTables.Table<nat>

  /** One table is the other after an insert of `k`, written where the source's probe stops. */
  ghost predicate Inserted(t: Table, w: Table, shift: nat, k: nat, v: nat, d: nat) {
    var home := FlatTables.IndexOf(k, shift);
    && home < |t| && d < |t| && FlatTables.At(home, d, |t|) < |t|
    && FlatTables.PassedInsert(t, home, d, k)
    && FlatTables.StopsInsert(t[FlatTables.At(home, d, |t|)], k)
    && w == t[FlatTables.At(home, d, |t|) := FlatTables.Entry(k, v)]
  }

  /** A table of 16 slots; keys 1 and 22 both start at slot 9. */
  function Slots16(a: FlatTables.Entry<nat>, c: FlatTables.Entry<nat>): Table {
    seq(16, i => if i == 9 then a else if i == 10 then c else FlatTables.Entry(FlatTables.EMPTY, 0))
  }

  /** Insert 1, insert 22, erase 1, insert 22 again: the tombstone is reused and 22 is stored twice. */
  lemma KeyTwice()
    ensures var none, k1, k22 := FlatTables.Entry(FlatTables.EMPTY, 0), FlatTables.Entry(1, 0), FlatTables.Entry(22, 0);
      var dead, again := k1.(key := FlatTables.TOMBSTONE), FlatTables.Entry(22, 5);
      && Inserted(Slots16(none, none), Slots16(k1, none), 60, 1, 0, 0)
      && Inserted(Slots16(k1, none), Slots16(k1, k22), 60, 22, 0, 1)
      && Slots16(dead, k22) == Slots16(k1, k22)[9 := dead]
      && Inserted(Slots16(dead, k22), Slots16(again, k22), 60, 22, 5, 0)
      && !FlatTables.NoKeyTwice(Slots16(again, k22))
  {
    var none, k1, k22 := FlatTables.Entry(FlatTables.EMPTY, 0), FlatTables.Entry(1, 0), FlatTables.Entry(22, 0);
    var dead, again := k1.(key := FlatTables.TOMBSTONE), FlatTables.Entry(22, 5);
    SameHome();
    hide FlatTables.IndexOf;
    assert Slots16(k1, none) == Slots16(none, none)[9 := k1];
    assert Slots16(k1, k22) == Slots16(k1, none)[10 := k22];
    assert Slots16(again, k22) == Slots16(dead, k22)[9 := again];
    assert Slots16(again, k22)[9].key == Slots16(again, k22)[10].key;
  }

  lemma SameHome()
    ensures FlatTables.IndexOf(1, 60) == 9 && FlatTables.IndexOf(22, 60) == 9
  {
    hide Pow2;
    Pow2Sixty();
  }

  lemma Pow2Sixty()
    ensures Pow2(60) == 0x1000_0000_0000_0000
  {
    Pow2Word();
    Pow2Add(4, 60);
    assert Pow2(4) == 16;
  }
}
