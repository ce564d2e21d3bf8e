/**
 Whole lives of a book with clock checks: the expiry heap as a function of what was submitted and when the
 clock was read, and exactly when a check removes the orders whose time has come.
 */
module Stories {
  import opened Types
  import opened BookSpec
  import opened SweepTheorems
  import opened BookInvariants
  import opened Runs
  import opened Replays
  import opened Expiries

  datatype Moment = Do(c: Runs.Command) | Clock(now: nat)

  /** The orders, and the expiry entries that wait. */
  datatype Stand = Stand(book: Book, heap: Heap)

  ghost function NextStand(slots: nat, s: Stand, m: Moment): Stand {
    match m
    case Do(c) => Stand(Step(Pooled(slots), State(s.book, 0), c).0.book, HeapAfter(slots, s.book, s.heap, c))
    case Clock(now) => Stand(KeepBook(s.book, DueIds(s.heap, now)), Later(s.heap, now))
  }

  ghost function StandAfter(slots: nat, ms: seq<Moment>): Stand {
    if ms == [] then Stand(Book([], []), multiset{})
    else NextStand(slots, StandAfter(slots, AllButLast(ms)), Last(ms))
  }

  ghost predicate LegalStory(slots: nat, ticks: nat, ms: seq<Moment>) {
    ms == [] ||
    (LegalStory(slots, ticks, AllButLast(ms)) &&
     (Last(ms).Do? ==> Legal(ticks, StandAfter(slots, AllButLast(ms)).book, Last(ms).c)))
  }

  ghost predicate LeadsTo(slots: nat, ticks: nat, ms: seq<Moment>, s: Stand) {
    LegalStory(slots, ticks, ms) && StandAfter(slots, ms) == s
  }

  /** A story with one moment more. */
  lemma StoryGrows(slots: nat, ticks: nat, ms: seq<Moment>, m: Moment)
    ensures StandAfter(slots, ms + [m]) == NextStand(slots, StandAfter(slots, ms), m)
    ensures LegalStory(slots, ticks, ms + [m]) <==>
            LegalStory(slots, ticks, ms) && (m.Do? ==> Legal(ticks, StandAfter(slots, ms).book, m.c))
  {
    hide NextStand, Legal;
    assert AllButLast(ms + [m]) == ms && Last(ms + [m]) == m;
  }

  // ---------- what every story keeps ----------

  lemma NothingHonest()
    ensures Honest(Book([], []), multiset{}) && HeapCovers(Book([], []), multiset{})
  {
  }

  lemma {:induction false} StorySound(slots: nat, ticks: nat, ms: seq<Moment>)
    requires LegalStory(slots, ticks, ms)
    ensures var s := StandAfter(slots, ms);
      Good(s.book) && s.book.Count() <= slots && HeapCovers(s.book, s.heap) && forall e :: e in s.heap ==> e.expiry > 0
  {
    hide BookOk, Positive, HeapCovers, Legal, HeapAfter;
    if ms == [] {
      EmptyGood();
      NothingHonest();
    } else {
      var s := StandAfter(slots, AllButLast(ms));
      StorySound(slots, ticks, AllButLast(ms));
      match Last(ms)
      case Do(c) =>
        StepGood(Pooled(slots), ticks, State(s.book, 0), c);
        StepCount(slots, ticks, State(s.book, 0), c);
        StaysCovered(slots, State(s.book, 0), s.heap, c);
      case Clock(now) => ClockKeeps(s.book, s.heap, now);
    }
  }

  // ---------- the heap, from the history alone ----------

  /** At moment `j` a submit came to rest. */
  ghost predicate RestedAt(slots: nat, ms: seq<Moment>, j: nat) {
    && j < |ms| && ms[j].Do? && ms[j].c.Submission?
    && ComesToRest(slots, StandAfter(slots, ms[..j]).book, ms[j].c.r)
  }

  predicate Schedules(r: Request, e: ExpiryEntry) {
    r.tif.GTD? && 0 < r.expiry && e == ExpiryEntry(r.expiry, r.id)
  }

  /** The submit at moment `j` scheduled `e`, and the clock has not been read at or after that time since. */
  ghost predicate Outstanding(slots: nat, ms: seq<Moment>, j: nat, e: ExpiryEntry) {
    && RestedAt(slots, ms, j)
    && Schedules(ms[j].c.r, e)
    && forall k :: j < k < |ms| && ms[k].Clock? ==> ms[k].now < e.expiry
  }

  /** The earlier moments of a story are those of its beginning. */
  lemma Earlier(slots: nat, ms: seq<Moment>, j: nat)
    requires ms != [] && j < |ms| - 1
    ensures RestedAt(slots, ms, j) == RestedAt(slots, AllButLast(ms), j) && AllButLast(ms)[j] == ms[j]
  {
    assert AllButLast(ms)[..j] == ms[..j];
  }

  lemma EarlierOutstanding(slots: nat, ms: seq<Moment>, j: nat, e: ExpiryEntry)
    requires ms != [] && j < |ms| - 1
    ensures Outstanding(slots, ms, j, e) <==>
            Outstanding(slots, AllButLast(ms), j, e) && (Last(ms).Clock? ==> Last(ms).now < e.expiry)
  {
    hide ComesToRest, StandAfter;
    var init := AllButLast(ms);
    Earlier(slots, ms, j);
    if Outstanding(slots, ms, j, e) {
      forall k | j < k < |init| && init[k].Clock?
        ensures init[k].now < e.expiry
      {
        assert ms[k] == init[k];
      }
    }
    if Outstanding(slots, init, j, e) && (Last(ms).Clock? ==> Last(ms).now < e.expiry) {
      forall k | j < k < |ms| && ms[k].Clock?
        ensures ms[k].now < e.expiry
      {
        if k < |init| {
          assert ms[k] == init[k];
        }
      }
    }
  }

  /** The last moment schedules an entry exactly when it is a submit that comes to rest with a time. */
  lemma LastOutstanding(slots: nat, ms: seq<Moment>, e: ExpiryEntry)
    requires ms != []
    ensures Outstanding(slots, ms, |ms| - 1, e) <==>
            && Last(ms).Do? && Last(ms).c.Submission?
            && e in PushedBy(slots, StandAfter(slots, AllButLast(ms)).book, Last(ms).c.r)
  {
    hide ComesToRest, StandAfter, Sweep;
    assert ms[..|ms| - 1] == AllButLast(ms);
  }

  /** A resubmission schedules nothing new: its order had its entry already. */
  lemma ResubmitPushesNothing(slots: nat, b: Book, heap: Heap, id: nat, price: int, qty: nat, e: ExpiryEntry)
    requires HeapCovers(b, heap) && Live(b, id)
    requires e in PushedBy(slots, Cancel(b, id), Resubmission(Lookup(b, id), price, qty))
    ensures e in heap
  {
    hide ComesToRest, Sweep, Find;
    var side := SideHolding(b, id);
    assert b.On(side)[Find(b.On(side), id)] == Lookup(b, id);
  }

  /** An entry waits exactly when some submit scheduled it and no check of the clock has taken it since. */
  lemma {:induction false} HeapHistory(slots: nat, ticks: nat, ms: seq<Moment>, e: ExpiryEntry)
    requires LegalStory(slots, ticks, ms)
    ensures e in StandAfter(slots, ms).heap <==> exists j: nat :: Outstanding(slots, ms, j, e)
  {
    hide Outstanding, PushedBy, HeapCovers, Legal, Live, Good;
    if ms == [] {
      assert forall j: nat :: !Outstanding(slots, ms, j, e) by {
        forall j: nat
          ensures !Outstanding(slots, ms, j, e)
        {
          NothingOutstanding(slots, j, e);
        }
      }
    } else {
      var init := AllButLast(ms);
      var s := StandAfter(slots, init);
      HeapHistory(slots, ticks, init, e);
      StorySound(slots, ticks, init);
      LastOutstanding(slots, ms, e);
      OutstandingEarlierOrLast(slots, ms, e);
      match Last(ms)
      case Clock(now) =>
      case Do(c) =>
        if c.Modification? && Resubmits(s.book, c)
           && e in PushedBy(slots, Cancel(s.book, c.id), Resubmission(Lookup(s.book, c.id), c.price, c.qty)) {
          ResubmitPushesNothing(slots, s.book, s.heap, c.id, c.price, c.qty, e);
        }
    }
  }

  lemma NothingOutstanding(slots: nat, j: nat, e: ExpiryEntry)
    ensures !Outstanding(slots, [], j, e)
  {
  }

  lemma OutstandingEarlierOrLast(slots: nat, ms: seq<Moment>, e: ExpiryEntry)
    requires ms != []
    ensures (exists j: nat :: Outstanding(slots, ms, j, e)) <==>
            || Outstanding(slots, ms, |ms| - 1, e)
            || ((exists j: nat :: Outstanding(slots, AllButLast(ms), j, e)) &&
                (Last(ms).Clock? ==> Last(ms).now < e.expiry))
  {
    hide Outstanding;
    forall j: nat
      ensures Outstanding(slots, ms, j, e) && j != |ms| - 1 ==>
                Outstanding(slots, AllButLast(ms), j, e) && (Last(ms).Clock? ==> Last(ms).now < e.expiry)
      ensures Outstanding(slots, AllButLast(ms), j, e) && (Last(ms).Clock? ==> Last(ms).now < e.expiry) ==>
                Outstanding(slots, ms, j, e)
    {
      OutstandingInside(slots, ms, j, e);
      OutstandingInside(slots, AllButLast(ms), j, e);
      if j < |ms| - 1 {
        EarlierOutstanding(slots, ms, j, e);
      }
    }
  }

  lemma OutstandingInside(slots: nat, ms: seq<Moment>, j: nat, e: ExpiryEntry)
    ensures Outstanding(slots, ms, j, e) ==> j < |ms|
  {
  }

  // ---------- where the resting orders come from ----------

  predicate OnTermsOf(r: Request, o: Order) {
    r.id == o.id && r.side == o.side && r.owner == o.owner && r.tif == o.tif && r.expiry == o.expiry
  }

  /** The order is the one that the submit at moment `u` brought to rest: its id has not come to rest again since. */
  ghost predicate CameAt(slots: nat, ms: seq<Moment>, o: Order, u: nat) {
    && RestedAt(slots, ms, u)
    && OnTermsOf(ms[u].c.r, o)
    && forall v: nat :: u < v && RestedAt(slots, ms, v) ==> ms[v].c.r.id != o.id
  }

  ghost predicate HasOrigin(slots: nat, ms: seq<Moment>, o: Order) {
    exists u: nat :: CameAt(slots, ms, o, u)
  }

  ghost predicate Traced(slots: nat, ms: seq<Moment>, b: Book) {
    forall side, i: nat :: i < |b.On(side)| ==> HasOrigin(slots, ms, b.On(side)[i])
  }

  lemma SameOrigin(slots: nat, ms: seq<Moment>, o: Order, p: Order)
    requires HasOrigin(slots, ms, o)
    requires p.id == o.id && p.side == o.side && p.owner == o.owner && p.tif == o.tif && p.expiry == o.expiry
    ensures HasOrigin(slots, ms, p)
  {
    hide RestedAt;
    var u: nat :| CameAt(slots, ms, o, u);
    assert CameAt(slots, ms, p, u);
  }

  lemma InheritsTraced(slots: nat, ms: seq<Moment>, w: Book, b: Book)
    requires Inherits(w, b) && Traced(slots, ms, b)
    ensures Traced(slots, ms, w)
  {
    hide HasOrigin;
    forall side, i: nat | i < |w.On(side)|
      ensures HasOrigin(slots, ms, w.On(side)[i])
    {
      assert CameFrom(w.On(side)[i], side, b);
      var j: nat :| j < |b.On(side)| && SameKey(w.On(side)[i], b.On(side)[j]);
      SameOrigin(slots, ms, b.On(side)[j], w.On(side)[i]);
    }
  }

  lemma RestTraced(slots: nat, ms: seq<Moment>, b: Book, o: Order)
    requires Traced(slots, ms, b) && HasOrigin(slots, ms, o)
    ensures Traced(slots, ms, Rest(b, o))
  {
    hide HasOrigin, Slot;
    var w := Rest(b, o);
    var q := b.On(o.side);
    var k := Slot(o.side, q, o.price);
    InsertAtIndex(q, k, o);
    forall side, i: nat | i < |w.On(side)|
      ensures HasOrigin(slots, ms, w.On(side)[i])
    {
      if side != o.side {
        assert w.On(side)[i] == b.On(side)[i];
      } else if i != k {
        assert w.On(side)[i] == q[if i < k then i else i - 1];
      }
    }
  }

  /** Another moment changes no origin, unless it brings the same id to rest again. */
  lemma OriginStays(slots: nat, ms: seq<Moment>, o: Order)
    requires ms != [] && HasOrigin(slots, AllButLast(ms), o)
    requires RestedAt(slots, ms, |ms| - 1) ==> Last(ms).c.r.id != o.id
    ensures HasOrigin(slots, ms, o)
  {
    hide ComesToRest, StandAfter;
    var init := AllButLast(ms);
    var u: nat :| CameAt(slots, init, o, u);
    Earlier(slots, ms, u);
    forall v: nat | u < v && RestedAt(slots, ms, v)
      ensures ms[v].c.r.id != o.id
    {
      if v < |ms| - 1 {
        Earlier(slots, ms, v);
      }
    }
    assert CameAt(slots, ms, o, u);
  }

  lemma TracedStays(slots: nat, ms: seq<Moment>, b: Book)
    requires ms != [] && Traced(slots, AllButLast(ms), b)
    requires RestedAt(slots, ms, |ms| - 1) ==> !Live(b, Last(ms).c.r.id)
    ensures Traced(slots, ms, b)
  {
    hide HasOrigin, RestedAt, Find;
    forall side, i: nat | i < |b.On(side)|
      ensures HasOrigin(slots, ms, b.On(side)[i])
    {
      if RestedAt(slots, ms, |ms| - 1) {
        assert Last(ms) == ms[|ms| - 1];
        RestedIsSubmit(slots, ms, |ms| - 1);
        NotLive(b, Last(ms).c.r.id);
        assert b.On(side)[i].id != Last(ms).c.r.id;
      }
      OriginStays(slots, ms, b.On(side)[i]);
    }
  }

  lemma RestedIsSubmit(slots: nat, ms: seq<Moment>, j: nat)
    requires RestedAt(slots, ms, j)
    ensures j < |ms| && ms[j].Do? && ms[j].c.Submission?
  {
  }

  lemma NewOrigin(slots: nat, ms: seq<Moment>, remaining: nat)
    requires ms != [] && RestedAt(slots, ms, |ms| - 1)
    ensures Last(ms).Do? && Last(ms).c.Submission?
    ensures HasOrigin(slots, ms, OrderOf(Last(ms).c.r, remaining))
  {
    hide ComesToRest, StandAfter;
    assert CameAt(slots, ms, OrderOf(Last(ms).c.r, remaining), |ms| - 1);
  }

  /** Every resting order goes back to the last submit of its id that came to rest. */
  lemma {:induction false} StoryTraced(slots: nat, ticks: nat, ms: seq<Moment>)
    requires LegalStory(slots, ticks, ms)
    ensures Traced(slots, ms, StandAfter(slots, ms).book)
  {
    hide Traced, Good, Legal, HeapAfter, KeepBook, Step, RestedAt, ComesToRest;
    if ms == [] {
      NothingTraced(slots);
    } else {
      var s := StandAfter(slots, AllButLast(ms));
      StoryTraced(slots, ticks, AllButLast(ms));
      StorySound(slots, ticks, AllButLast(ms));
      match Last(ms)
      case Do(c) => CommandTraced(slots, ticks, ms, c);
      case Clock(now) =>
        ClockKeeps(s.book, s.heap, now);
        OnlySubmitsRest(slots, ms);
        TracedStays(slots, ms, s.book);
        InheritsTraced(slots, ms, StandAfter(slots, ms).book, s.book);
    }
  }

  lemma NothingTraced(slots: nat)
    ensures Traced(slots, [], Book([], []))
  {
  }

  lemma OnlySubmitsRest(slots: nat, ms: seq<Moment>)
    requires ms != []
    ensures RestedAt(slots, ms, |ms| - 1) <==>
      && Last(ms).Do? && Last(ms).c.Submission?
      && ComesToRest(slots, StandAfter(slots, AllButLast(ms)).book, Last(ms).c.r)
  {
    assert ms[..|ms| - 1] == AllButLast(ms);
  }

  lemma OnlyLimitsRest(slots: nat, b: Book, r: Request)
    ensures ComesToRest(slots, b, r) ==> r.kind.Limit?
  {
  }

  lemma CommandTraced(slots: nat, ticks: nat, ms: seq<Moment>, c: Runs.Command)
    requires ms != [] && Last(ms) == Do(c)
    requires var b := StandAfter(slots, AllButLast(ms)).book;
      Good(b) && Legal(ticks, b, c) && Traced(slots, AllButLast(ms), b)
    ensures Traced(slots, ms, Step(Pooled(slots), State(StandAfter(slots, AllButLast(ms)).book, 0), c).0.book)
  {
    hide Traced, BookOk, Positive, RestedAt, ComesToRest, StandAfter, Cancel, Submit, Inherits, Find, HasOrigin, Rest;
    var b := StandAfter(slots, AllButLast(ms)).book;
    OnlySubmitsRest(slots, ms);
    if c.Submission? {
      OnlyLimitsRest(slots, b, c.r);
    }
    TracedStays(slots, ms, b);
    match c
    case Submission(r) =>
      if ComesToRest(slots, b, r) {
        NewOrigin(slots, ms, SweepOf(b, r, 0).remaining);
      }
      SubmitTraced(slots, ms, b, r);
    case Cancellation(id) =>
      CancelInherits(b, id);
      InheritsTraced(slots, ms, Cancel(b, id), b);
    case Modification(id, price, qty) =>
      CancelInherits(b, id);
      InheritsTraced(slots, ms, Cancel(b, id), b);
      if Live(b, id) && qty > 0 {
        var o := Lookup(b, id);
        if ShrinksInPlace(o, price, qty) {
          ResizeInherits(b, id, qty);
          InheritsTraced(slots, ms, Resize(b, id, qty), b);
        } else {
          var r := Resubmission(o, price, qty);
          CancelGood(b, id);
          LookupTraced(slots, ms, b, id);
          SameOrigin(slots, ms, o, OrderOf(r, SweepOf(Cancel(b, id), r, 0).remaining));
          SubmitTraced(slots, ms, Cancel(b, id), r);
        }
      }
  }

  lemma LookupTraced(slots: nat, ms: seq<Moment>, b: Book, id: nat)
    requires Traced(slots, ms, b) && Live(b, id)
    ensures HasOrigin(slots, ms, Lookup(b, id))
  {
    hide HasOrigin, Find;
    var side := SideHolding(b, id);
    assert b.On(side)[Find(b.On(side), id)] == Lookup(b, id);
  }

  lemma SubmitTraced(slots: nat, ms: seq<Moment>, b: Book, r: Request)
    requires Good(b) && Traced(slots, ms, b)
    requires ComesToRest(slots, b, r) ==> HasOrigin(slots, ms, OrderOf(r, SweepOf(b, r, 0).remaining))
    ensures Traced(slots, ms, Submit(Pooled(slots), b, r, 0).book)
  {
    hide Traced, BookOk, Positive, ComesToRest, Submit, Inherits, HasOrigin, Rest;
    SubmitShape(slots, b, r, 0);
    if ComesToRest(slots, b, r) {
      InheritsTraced(slots, ms, AfterSweep(b, r, 0), b);
      RestTraced(slots, ms, AfterSweep(b, r, 0), OrderOf(r, SweepOf(b, r, 0).remaining));
    } else {
      InheritsTraced(slots, ms, Submit(Pooled(slots), b, r, 0).book, b);
    }
  }

  // ---------- exactly when a check of the clock is right ----------

  /**
   The submits at moments `i` and `u` brought the same id to rest. The later order still rests and is not due,
   and the earlier one's time has come without the clock having been read at or after it: the check at `now`
   will take the later order for the earlier.
   */
  ghost predicate HauntedBy(slots: nat, ms: seq<Moment>, now: nat, i: nat, u: nat) {
    && i < u && RestedAt(slots, ms, i) && RestedAt(slots, ms, u)
    && var r, later := ms[i].c.r, ms[u].c.r;
       && r.id == later.id
       && Live(StandAfter(slots, ms).book, later.id)
       && (forall v: nat :: u < v && RestedAt(slots, ms, v) ==> ms[v].c.r.id != later.id)
       && !(later.tif.GTD? && 0 < later.expiry <= now)
       && r.tif.GTD? && 0 < r.expiry <= now
       && forall k :: i < k < |ms| && ms[k].Clock? ==> ms[k].now < r.expiry
  }

  ghost predicate Haunted(slots: nat, ms: seq<Moment>, now: nat) {
    exists i: nat, u: nat :: HauntedBy(slots, ms, now, i, u)
  }

  /** The terms of a resting order are those of the last submit of its id that came to rest. */
  lemma LiveTerms(slots: nat, ticks: nat, ms: seq<Moment>, id: nat) returns (u: nat)
    requires LegalStory(slots, ticks, ms) && Live(StandAfter(slots, ms).book, id)
    ensures CameAt(slots, ms, Lookup(StandAfter(slots, ms).book, id), u)
  {
    hide CameAt, Find, RestedAt;
    StoryTraced(slots, ticks, ms);
    LookupTraced(slots, ms, StandAfter(slots, ms).book, id);
    u :| CameAt(slots, ms, Lookup(StandAfter(slots, ms).book, id), u);
  }

  /** The last submit of an id that came to rest is the only one. */
  lemma LastIsOnly(slots: nat, ms: seq<Moment>, o: Order, u: nat, v: nat)
    requires CameAt(slots, ms, o, u) && RestedAt(slots, ms, v) && ms[v].c.r.id == o.id
    requires forall w: nat :: v < w && RestedAt(slots, ms, w) ==> ms[w].c.r.id != o.id
    ensures u == v
  {
  }

  /** A check of the clock removes exactly the due orders if and only if no earlier use of a live id haunts it. */
  lemma ExpiryExactly(slots: nat, ticks: nat, ms: seq<Moment>, now: nat)
    requires LegalStory(slots, ticks, ms)
    ensures var s := StandAfter(slots, ms);
      RemovedTheDue(s.book, NextStand(slots, s, Clock(now)).book, now) <==> !Haunted(slots, ms, now)
  {
    hide StandAfter, KeepBook, DueIds, RestedAt, Find, RemovedTheDue, HeapCovers, Good, LegalStory;
    var s := StandAfter(slots, ms);
    StorySound(slots, ticks, ms);
    ExpiryExact(s.book, s.heap, now);
    if !NotMisled(s.book, s.heap, now) {
      var e :| e in s.heap && e.expiry <= now && Live(s.book, e.id) && !Due(Lookup(s.book, e.id), now);
      MisledIsHaunted(slots, ticks, ms, now, e);
    }
    if Haunted(slots, ms, now) {
      var i: nat, u: nat :| HauntedBy(slots, ms, now, i, u);
      HauntedIsMisled(slots, ticks, ms, now, i, u);
    }
  }

  lemma MisledIsHaunted(slots: nat, ticks: nat, ms: seq<Moment>, now: nat, e: ExpiryEntry)
    requires LegalStory(slots, ticks, ms)
    requires var s := StandAfter(slots, ms);
      e in s.heap && e.expiry <= now && Live(s.book, e.id) && !Due(Lookup(s.book, e.id), now)
    ensures Haunted(slots, ms, now)
  {
    hide StandAfter, RestedAt, Find, LegalStory;
    HeapHistory(slots, ticks, ms, e);
    var i: nat :| Outstanding(slots, ms, i, e);
    var u := LiveTerms(slots, ticks, ms, e.id);
    RestedIsSubmit(slots, ms, i);
    RestedIsSubmit(slots, ms, u);
    assert HauntedBy(slots, ms, now, i, u);
  }

  lemma HauntedIsMisled(slots: nat, ticks: nat, ms: seq<Moment>, now: nat, i: nat, u: nat)
    requires LegalStory(slots, ticks, ms) && HauntedBy(slots, ms, now, i, u)
    ensures !NotMisled(StandAfter(slots, ms).book, StandAfter(slots, ms).heap, now)
  {
    hide StandAfter, Find, LegalStory, ComesToRest;
    var r := ms[i].c.r;
    var e := ExpiryEntry(r.expiry, r.id);
    assert Outstanding(slots, ms, i, e);
    HeapHistory(slots, ticks, ms, e);
    var v := LiveTerms(slots, ticks, ms, r.id);
    LastIsOnly(slots, ms, Lookup(StandAfter(slots, ms).book, r.id), v, u);
  }

  // ---------- ids used once ----------

  /** No id is submitted twice by limit orders. */
  predicate IdsUsedOnce(ms: seq<Moment>) {
    forall i, j :: 0 <= i < j < |ms| && IsLimit(ms[i]) && IsLimit(ms[j]) ==> ms[i].c.r.id != ms[j].c.r.id
  }

  predicate IsLimit(m: Moment) {
    m.Do? && m.c.Submission? && m.c.r.kind.Limit?
  }

  /** With every id used once each entry tells the truth about the order it names, after every story. */
  lemma {:induction false} StoryHonest(slots: nat, ticks: nat, ms: seq<Moment>)
    requires LegalStory(slots, ticks, ms) && IdsUsedOnce(ms)
    ensures Honest(StandAfter(slots, ms).book, StandAfter(slots, ms).heap)
  {
    hide Honest, HeapCovers, Good, Legal, HeapAfter, KeepBook, ComesToRest;
    if ms == [] {
      NothingHonest();
    } else {
      var init := AllButLast(ms);
      var s := StandAfter(slots, init);
      StoryHonest(slots, ticks, init);
      StorySound(slots, ticks, init);
      match Last(ms)
      case Clock(now) => ClockKeeps(s.book, s.heap, now);
      case Do(c) =>
        if c.Submission? && ComesToRest(slots, s.book, c.r) {
          FreshIfUsedOnce(slots, ticks, ms);
        }
        StaysHonest(slots, ticks, State(s.book, 0), s.heap, c);
    }
  }

  /** The heap knows nothing of an id that was never submitted before. */
  lemma FreshIfUsedOnce(slots: nat, ticks: nat, ms: seq<Moment>)
    requires ms != [] && LegalStory(slots, ticks, AllButLast(ms)) && IdsUsedOnce(ms)
    requires Last(ms).Do? && Last(ms).c.Submission?
    requires ComesToRest(slots, StandAfter(slots, AllButLast(ms)).book, Last(ms).c.r)
    ensures FreshForHeap(StandAfter(slots, AllButLast(ms)).heap, Last(ms).c.r)
  {
    hide StandAfter, LegalStory, Sweep;
    var init, r := AllButLast(ms), Last(ms).c.r;
    forall e | e in StandAfter(slots, init).heap
      ensures e.id != r.id
    {
      HeapHistory(slots, ticks, init, e);
      var j: nat :| Outstanding(slots, init, j, e);
      assert IsLimit(ms[j]) && IsLimit(ms[|ms| - 1]) && ms[j] == init[j];
    }
  }

  /** With every id used once each check of the clock removes exactly the orders whose time has come. */
  lemma UsedOnceExpires(slots: nat, ticks: nat, ms: seq<Moment>, now: nat)
    requires LegalStory(slots, ticks, ms)
    ensures IdsUsedOnce(ms) ==>
      var s := StandAfter(slots, ms);
      RemovedTheDue(s.book, NextStand(slots, s, Clock(now)).book, now)
  {
    hide StandAfter, KeepBook, RemovedTheDue, Honest, HeapCovers, Good, LegalStory, IdsUsedOnce;
    if IdsUsedOnce(ms) {
      var s := StandAfter(slots, ms);
      StorySound(slots, ticks, ms);
      StoryHonest(slots, ticks, ms);
      HonestExpiry(s.book, s.heap, now);
    }
  }

  /** A side without its due orders, the others in place. */
  function Undue(q: seq<Order>, now: nat): seq<Order> {
    if q == [] then []
    else (if q[0].tif.GTD? && 0 < q[0].expiry <= now then [] else [q[0]]) + Undue(q[1..], now)
  }

  lemma {:induction false} KeepsUndue(q: seq<Order>, dead: set<nat>, now: nat)
    requires forall i :: 0 <= i < |q| ==> (q[i].id in dead <==> Due(q[i], now))
    ensures Keep(q, dead) == Undue(q, now)
  {
    if q != [] {
      KeepsUndue(q[1..], dead, now);
    }
  }

  /** The same, order by order: a check leaves each side as it was, less the due orders. */
  lemma UsedOnceLeavesUndue(slots: nat, ticks: nat, ms: seq<Moment>, now: nat)
    requires LegalStory(slots, ticks, ms) && IdsUsedOnce(ms)
    ensures var s := StandAfter(slots, ms);
      NextStand(slots, s, Clock(now)).book == Book(Undue(s.book.bids, now), Undue(s.book.asks, now))
  {
    hide StandAfter, Keep, BookOk, Positive, HeapCovers, LegalStory, IdsUsedOnce, Find, Undue, DueIds, Due;
    var s := StandAfter(slots, ms);
    var dead := DueIds(s.heap, now);
    StorySound(slots, ticks, ms);
    UsedOnceExpires(slots, ticks, ms, now);
    forall side, i: nat | i < |s.book.On(side)|
      ensures s.book.On(side)[i].id in dead <==> Due(s.book.On(side)[i], now)
    {
      LiveAt(s.book, side, i);
      KeepLive(s.book, dead, s.book.On(side)[i].id);
    }
    assert forall i: nat :: i < |s.book.bids| ==> s.book.On(Buy)[i] == s.book.bids[i];
    assert forall i: nat :: i < |s.book.asks| ==> s.book.On(Sell)[i] == s.book.asks[i];
    KeepsUndue(s.book.bids, dead, now);
    KeepsUndue(s.book.asks, dead, now);
  }

  /**
   Whatever legal story led to these orders and entries, a check that leaves `after` has removed exactly the
   due orders if and only if no earlier use of an id haunts the story; so always when ids were used once.
   */
  ghost predicate ExpiresAsTold(slots: nat, ticks: nat, s: Stand, after: Book, now: nat) {
    forall past :: LeadsTo(slots, ticks, past, s) ==>
      && (RemovedTheDue(s.book, after, now) <==> !Haunted(slots, past, now))
      && (IdsUsedOnce(past) ==> RemovedTheDue(s.book, after, now))
  }

  lemma ToldByEveryPast(slots: nat, ticks: nat, s: Stand, now: nat)
    ensures ExpiresAsTold(slots, ticks, s, KeepBook(s.book, DueIds(s.heap, now)), now)
  {
    hide StandAfter, KeepBook, RemovedTheDue, Haunted, IdsUsedOnce, LegalStory, DueIds;
    forall past | LeadsTo(slots, ticks, past, s)
      ensures RemovedTheDue(s.book, KeepBook(s.book, DueIds(s.heap, now)), now) <==> !Haunted(slots, past, now)
      ensures IdsUsedOnce(past) ==> RemovedTheDue(s.book, KeepBook(s.book, DueIds(s.heap, now)), now)
    {
      ExpiryExactly(slots, ticks, past, now);
      UsedOnceExpires(slots, ticks, past, now);
    }
  }
}
