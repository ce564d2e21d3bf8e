/** When folding the update stream rebuilds the book, and exactly when it does not. */
module Replays {
  import opened Types
  import opened BookSpec
  import opened SweepTheorems
  import opened BookInvariants
  import opened BookTheorems
  import opened MatchSteps
  import opened Runs
  import opened PhotonSpec

  // ---------- one sweep ----------

  /** A Fill makes the consumer take the same bite out of the head of the side. */
  lemma FillApplies(w: Book, side: Side, q: seq<Order>, traded: nat, u: BookUpdate)
    requires BookOk(w) && w.On(side) == StripAll(q) && q != [] && 0 < traded <= q[0].remaining
    requires u.kind.Fill? && u.counterId == q[0].id && u.quantity == traded
    ensures Apply(w, u) == w.With(side, StripAll(HeadTaken(q, traded))) && BookOk(Apply(w, u))
  {
    hide BookOk, Live, Lookup, Cancel, Resize;
    var h := w.On(side);
    assert h[0] == Strip(q[0]);
    HeadResized(w, side, h[0].remaining - traded);
    HeadCancelled(w, side);
    CancelGood(w, h[0].id);
    assert StripAll(HeadTaken(q, traded)) == HeadTaken(h, traded);
  }

  /** Folding the fills of a sweep leaves the consumer with the queue the sweep left. */
  lemma {:induction false} SweepReplays(w: Book, q: seq<Order>, t: Taker, rem: nat, n: nat, budget: nat)
    requires BookOk(w) && w.On(t.side.Opposite()) == StripAll(q) && AllPositive(q)
    requires Traded(Sweep(q, t, rem, n).trades) <= budget
    ensures Replay(w, FillEvents(t.side, Sweep(q, t, rem, n).trades, budget)) ==
            w.With(t.side.Opposite(), StripAll(Sweep(q, t, rem, n).queue))
    decreases |q|
  {
    hide BookOk, Apply;
    var side := t.side.Opposite();
    if rem > 0 && q != [] && CanTrade(t, q[0]) {
      var s := Sweep(q, t, rem, n);
      var us := FillEvents(t.side, s.trades, budget);
      var traded := Min(rem, q[0].remaining);
      FillApplies(w, side, q, traded, us[0]);
      var w1 := Apply(w, us[0]);
      if rem >= q[0].remaining {
        assert s.trades[1..] == Sweep(q[1..], t, rem - traded, n + 1).trades;
        SweepReplays(w1, q[1..], t, rem - traded, n + 1, budget - traded);
      } else {
        assert s.trades[1..] == [];
      }
      assert us[1..] == FillEvents(t.side, s.trades[1..], budget - traded);
    }
  }

  /** What the consumer holds after the events of a submit, whatever else it held on the taker's side. */
  function AfterSubmitEvents(slots: nat, b: Book, w: Book, r: Request, n: nat): Book {
    if r.kind.Fok? && !CanFill(Pooled(slots), b.On(r.side.Opposite()), TakerOf(r), r.qty) then w
    else
      var s := SweepOf(b, r, n);
      var w1 := w.With(r.side.Opposite(), StripAll(s.queue));
      if Rests(b, r, n) then Rest(w1, Strip(OrderOf(r, s.remaining))) else w1
  }

  lemma SubmitReplays(slots: nat, b: Book, w: Book, r: Request, n: nat)
    requires Good(b) && BookOk(w) && w.On(r.side.Opposite()) == StripAll(b.On(r.side.Opposite()))
    ensures Replay(w, SubmitEvents(slots, b, r, n)) == AfterSubmitEvents(slots, b, w, r, n)
  {
    hide BookOk, Sweep, CanFill, Rest, Replay, RestEvents, FillEvents, HasRoom, AllPositive, StripAll;
    var s := SweepOf(b, r, n);
    SweepConserves(b.On(r.side.Opposite()), TakerOf(r), r.qty, n);
    if r.kind.Fok? && !CanFill(Pooled(slots), b.On(r.side.Opposite()), TakerOf(r), r.qty) {
      ReplayOne(w, SubmitEvents(slots, b, r, n)[0]);
    } else {
      SweepReplays(w, b.On(r.side.Opposite()), TakerOf(r), r.qty, n, r.qty);
      var w1 := w.With(r.side.Opposite(), StripAll(s.queue));
      if Rests(b, r, n) {
        var us := RestEvents(r, s.remaining, HasRoom(Pooled(slots), AfterSweep(b, r, n)), n + |s.trades|);
        ReplayAppend(w, SweepEvents(b, r, n), us);
        RestReplays(w1, r, s.remaining, HasRoom(Pooled(slots), AfterSweep(b, r, n)), n + |s.trades|);
      } else {
        assert SweepEvents(b, r, n) + [] == SweepEvents(b, r, n);
      }
    }
  }

  lemma ReplayOne(w: Book, u: BookUpdate)
    ensures Replay(w, [u]) == Apply(w, u)
  {
    assert [u][1..] == [];
  }

  lemma RestReplays(w: Book, r: Request, remaining: nat, room: bool, n: nat)
    ensures Replay(w, RestEvents(r, remaining, room, n)) == Rest(w, Strip(OrderOf(r, remaining)))
  {
    var us := RestEvents(r, remaining, room, n);
    if room {
      ReplayOne(w, us[0]);
    } else {
      assert us == [us[0]] + [us[1]];
      ReplayAppend(w, [us[0]], [us[1]]);
      ReplayOne(w, us[0]);
      ReplayOne(w, us[1]);
    }
  }

  // ---------- one step ----------

  /** What can happen to the book: a command, or a check of the clock that expires some orders. */
  datatype Happening = Command(c: Runs.Command) | Expiry(gone: seq<nat>)

  function ExpireAll(b: Book, gone: seq<nat>): Book
    decreases |gone|
  {
    if gone == [] then b else ExpireAll(Cancel(b, gone[0]), gone[1..])
  }

  function ExpireEvents(b: Book, gone: seq<nat>, n: nat): seq<BookUpdate>
    decreases |gone|
  {
    if gone == [] then []
    else if Live(b, gone[0]) then
      [ExpireEvent(Lookup(b, gone[0]), n)] + ExpireEvents(Cancel(b, gone[0]), gone[1..], n + 1)
    else ExpireEvents(b, gone[1..], n)
  }

  function BookAfter(slots: nat, s: State, h: Happening): Book {
    match h
    case Command(c) => Step(Pooled(slots), s, c).0.book
    case Expiry(gone) => ExpireAll(s.book, gone)
  }

  function EventsOf(slots: nat, s: State, h: Happening): seq<BookUpdate> {
    match h
    case Command(c) =>
      (match c
       case Submission(r) => SubmitEvents(slots, s.book, r, s.seqNo)
       case Cancellation(id) => CancelEvents(s.book, id, s.seqNo)
       case Modification(id, price, qty) => ModifyEvents(slots, s.book, id, price, qty, s.seqNo))
    case Expiry(gone) => ExpireEvents(s.book, gone, s.seqNo)
  }

  function Next(slots: nat, s: State, h: Happening): State {
    State(BookAfter(slots, s, h), s.seqNo + |EventsOf(slots, s, h)|)
  }

  /** A modify that gives up its place and submits again. */
  predicate Resubmits(b: Book, c: Runs.Command) {
    c.Modification? && Live(b, c.id) && c.qty > 0 && !ShrinksInPlace(Lookup(b, c.id), c.price, c.qty)
  }

  /** A submit leaves an order in the book that it has found a slot for. */
  predicate ComesToRest(slots: nat, b: Book, r: Request) {
    Rests(b, r, 0) && HasRoom(Pooled(slots), AfterSweep(b, r, 0))
  }

  /** How many orders a command brings to rest: each is one insert of an absent id. */
  function NewlyRested(slots: nat, b: Book, c: Runs.Command): nat {
    match c
    case Submission(r) => if ComesToRest(slots, b, r) then 1 else 0
    case Cancellation(_) => 0
    case Modification(id, price, qty) =>
      if Resubmits(b, c) && ComesToRest(slots, Cancel(b, id), Resubmission(Lookup(b, id), price, qty)) then 1 else 0
  }

  /** The stream tells the whole truth about this step. */
  predicate Tells(slots: nat, b: Book, h: Happening) {
    h.Command? ==> !Resubmits(b, h.c) && (h.c.Submission? ==> !NoSlot(b, slots, h.c.r))
  }

  predicate LegalNext(ticks: nat, b: Book, h: Happening) {
    h.Command? ==> Legal(ticks, b, h.c)
  }

  lemma {:induction false} ExpiryReplays(b: Book, gone: seq<nat>, n: nat)
    requires Good(b)
    ensures Replay(StripBook(b), ExpireEvents(b, gone, n)) == StripBook(ExpireAll(b, gone))
    ensures Good(ExpireAll(b, gone)) && ExpireAll(b, gone).Count() <= b.Count()
    ensures Numbered(ExpireEvents(b, gone, n), n)
    decreases |gone|
  {
    hide BookOk, Positive, Replay, StripBook, Cancel, Live, Lookup, Book.Count;
    if gone == [] {
      ReplayNil(StripBook(b));
    } else {
      CancelGood(b, gone[0]);
      if Live(b, gone[0]) {
        var us, rest := ExpireEvents(b, gone, n), ExpireEvents(Cancel(b, gone[0]), gone[1..], n + 1);
        ExpiryReplays(Cancel(b, gone[0]), gone[1..], n + 1);
        StripCancel(b, gone[0]);
        assert us[1..] == rest && us[0] == ExpireEvent(Lookup(b, gone[0]), n);
        ReplayStep(StripBook(b), us);
        NumberedFrom(us, n);
      } else {
        NothingToCancel(b, gone[0]);
        ExpiryReplays(b, gone[1..], n);
      }
    }
  }

  lemma NumberedFrom(us: seq<BookUpdate>, n: nat)
    requires us != [] && us[0].seqNo == n && Numbered(us[1..], n + 1)
    ensures Numbered(us, n)
  {
    forall i | 0 <= i < |us|
      ensures us[i].seqNo == n + i
    {
      if i > 0 {
        assert us[1..][i - 1] == us[i];
      }
    }
  }

  lemma StripCount(b: Book)
    ensures StripBook(b).Count() == b.Count()
  {
  }

  /** A submit from a consumer in step stays in step exactly when no order was dropped. */
  lemma SubmitInStep(slots: nat, b: Book, r: Request, n: nat)
    requires Good(b) && LegalSubmit(b, r) && b.Count() <= slots
    ensures Replay(StripBook(b), SubmitEvents(slots, b, r, n)) == StripBook(Submit(Pooled(slots), b, r, n).book)
            <==> !NoSlot(b, slots, r)
  {
    hide BookOk, Slot, Positive;
    StripOk(b);
    SubmitReplays(slots, b, StripBook(b), r, n);
    DropsExactly(b, slots, r, n);
    var b1 := AfterSweep(b, r, n);
    var o := OrderOf(r, SweepOf(b, r, n).remaining);
    assert StripBook(b1) == StripBook(b).With(r.side.Opposite(), StripAll(SweepOf(b, r, n).queue));
    StripRest(b1, o);
    RestCount(StripBook(b1), Strip(o));
  }

  lemma RestCount(b: Book, o: Order)
    ensures Rest(b, o).Count() == b.Count() + 1
  {
    InsertAtIndex(b.On(o.side), Slot(o.side, b.On(o.side), o.price), o);
  }

  lemma LookupSide(b: Book, id: nat)
    requires BookOk(b) && Live(b, id)
    ensures Lookup(b, id).side == SideHolding(b, id)
  {
  }

  /** A resubmitting modify says nothing about the order it removed, so the consumer keeps one too many. */
  lemma ResubmitLosesStep(slots: nat, b: Book, id: nat, price: int, qty: nat, n: nat)
    requires Good(b) && LegalModify(b, id, price, qty) && b.Count() <= slots
    requires Live(b, id) && qty > 0 && !ShrinksInPlace(Lookup(b, id), price, qty)
    ensures var o := Modify(Pooled(slots), b, id, price, qty, n);
      Replay(StripBook(b), ModifyEvents(slots, b, id, price, qty, n)).Count() == o.book.Count() + 1
  {
    hide BookOk, Slot, Positive, Sweep;
    var c, r := Cancel(b, id), Resubmission(Lookup(b, id), price, qty);
    CancelGood(b, id);
    StripOk(b);
    LookupSide(b, id);
    assert c.On(r.side.Opposite()) == b.On(r.side.Opposite());
    SubmitReplays(slots, c, StripBook(b), r, n);
    SubmitSides(Pooled(slots), c, r, n);
    DropsExactly(c, slots, r, n);
    var w1 := StripBook(b).With(r.side.Opposite(), StripAll(SweepOf(c, r, n).queue));
    RestCount(w1, Strip(OrderOf(r, SweepOf(c, r, n).remaining)));
    if Rests(c, r, n) {
      InsertAtIndex(c.On(r.side), Slot(r.side, c.On(r.side), r.price), OrderOf(r, SweepOf(c, r, n).remaining));
    }
  }

  /** A consumer in step stays in step exactly through the steps the stream tells in full. */
  lemma StepInStep(slots: nat, ticks: nat, s: State, h: Happening)
    requires Good(s.book) && LegalNext(ticks, s.book, h) && s.book.Count() <= slots
    ensures Replay(StripBook(s.book), EventsOf(slots, s, h)) == StripBook(BookAfter(slots, s, h))
            <==> Tells(slots, s.book, h)
    ensures Good(BookAfter(slots, s, h)) && BookAfter(slots, s, h).Count() <= slots
    ensures Numbered(EventsOf(slots, s, h), s.seqNo)
  {
    hide BookOk, Positive, Submit, Modify, SubmitEvents, Find;
    match h
    case Command(c) =>
      StepGood(Pooled(slots), ticks, s, c);
      match c {
        case Submission(r) =>
          SubmitInStep(slots, s.book, r, s.seqNo);
          SubmitCount(s.book, slots, r, s.seqNo);
          SubmitNumbered(slots, s.book, r, s.seqNo);
        case Cancellation(id) =>
          CancelGood(s.book, id);
          StripCancel(s.book, id);
          if Live(s.book, id) {
            ReplayOne(StripBook(s.book), CancelEvent(Lookup(s.book, id), s.seqNo));
          }
        case Modification(id, price, qty) =>
          ModifyCount(s.book, slots, id, price, qty, s.seqNo);
          ModifyNumbered(slots, s.book, id, price, qty, s.seqNo);
          ModifyInStep(slots, s.book, id, price, qty, s.seqNo);
      }
    case Expiry(gone) => ExpiryReplays(s.book, gone, s.seqNo);
  }

  lemma ModifyInStep(slots: nat, b: Book, id: nat, price: int, qty: nat, n: nat)
    requires Good(b) && LegalModify(b, id, price, qty) && b.Count() <= slots
    ensures Replay(StripBook(b), ModifyEvents(slots, b, id, price, qty, n)) ==
            StripBook(Modify(Pooled(slots), b, id, price, qty, n).book)
            <==> !Resubmits(b, Modification(id, price, qty))
  {
    hide BookOk, Positive, Submit, SubmitEvents, Find;
    if Live(b, id) {
      var o := Lookup(b, id);
      LookupId(b, id);
      if qty == 0 {
        StripCancel(b, id);
        ReplayOne(StripBook(b), CancelEvent(o, n));
      } else if ShrinksInPlace(o, price, qty) {
        StripResize(b, id, qty);
        ReplayOne(StripBook(b), ReplaceEvent(o, qty, n));
      } else {
        ResubmitLosesStep(slots, b, id, price, qty, n);
        StripCount(Modify(Pooled(slots), b, id, price, qty, n).book);
      }
    }
  }

  // ---------- whole streams ----------

  function After(slots: nat, hs: seq<Happening>): State {
    if hs == [] then EMPTY else Next(slots, After(slots, AllButLast(hs)), Last(hs))
  }

  /** Everything emitted over a run. */
  function Stream(slots: nat, hs: seq<Happening>): seq<BookUpdate> {
    if hs == [] then []
    else Stream(slots, AllButLast(hs)) + EventsOf(slots, After(slots, AllButLast(hs)), Last(hs))
  }

  predicate LegalHistory(slots: nat, ticks: nat, hs: seq<Happening>) {
    hs == [] ||
    (LegalHistory(slots, ticks, AllButLast(hs)) && LegalNext(ticks, After(slots, AllButLast(hs)).book, Last(hs)))
  }

  /** Every step of the run is told in full. */
  predicate ToldInFull(slots: nat, hs: seq<Happening>) {
    hs == [] ||
    (ToldInFull(slots, AllButLast(hs)) && Tells(slots, After(slots, AllButLast(hs)).book, Last(hs)))
  }

  /** After every prefix of the run the consumer holds the book. */
  predicate AlwaysRebuilds(slots: nat, hs: seq<Happening>) {
    && Replay(Book([], []), Stream(slots, hs)) == StripBook(After(slots, hs).book)
    && (hs != [] ==> AlwaysRebuilds(slots, AllButLast(hs)))
  }

  /** In every run the numbers of the stream are exactly 0, 1, 2, ... */
  lemma {:induction false} StreamNumbered(slots: nat, ticks: nat, hs: seq<Happening>)
    requires LegalHistory(slots, ticks, hs)
    ensures Numbered(Stream(slots, hs), 0) && |Stream(slots, hs)| == After(slots, hs).seqNo
    ensures Good(After(slots, hs).book) && After(slots, hs).book.Count() <= slots
  {
    hide BookOk, Positive, EventsOf, BookAfter;
    if hs != [] {
      StreamNumbered(slots, ticks, AllButLast(hs));
      StepInStep(slots, ticks, After(slots, AllButLast(hs)), Last(hs));
      NumberedAppend(Stream(slots, AllButLast(hs)), EventsOf(slots, After(slots, AllButLast(hs)), Last(hs)));
    } else {
      EmptyGood();
    }
  }

  lemma EmptyGood()
    ensures Good(Book([], []))
  {
  }

  lemma NumberedAppend(a: seq<BookUpdate>, c: seq<BookUpdate>)
    requires Numbered(a, 0) && Numbered(c, |a|)
    ensures Numbered(a + c, 0)
  {
  }

  /** Folding the stream rebuilds the book throughout exactly in the runs whose every step is told in full. */
  lemma {:induction false} RebuildsExactly(slots: nat, ticks: nat, hs: seq<Happening>)
    requires LegalHistory(slots, ticks, hs)
    ensures AlwaysRebuilds(slots, hs) <==> ToldInFull(slots, hs)
  {
    hide BookOk, Positive, EventsOf, BookAfter, Tells, Replay;
    if hs == [] {
      ReplayNothing();
    } else {
      var init := AllButLast(hs);
      RebuildsExactly(slots, ticks, init);
      StreamNumbered(slots, ticks, init);
      if AlwaysRebuilds(slots, init) {
        StepInStep(slots, ticks, After(slots, init), Last(hs));
        ReplayAppend(Book([], []), Stream(slots, init), EventsOf(slots, After(slots, init), Last(hs)));
      }
    }
  }

  lemma ReplayNothing()
    ensures Replay(Book([], []), []) == StripBook(Book([], []))
  {
  }
}
