/**
 What the lifecycle stream says, event by event and field by field: over whole histories, which step each
 event comes from and what it tells about the order the book held.
 */
module EventRules {
  import opened Types
  import opened BookSpec
  import opened SweepTheorems
  import opened BookInvariants
  import opened Runs
  import opened PhotonSpec
  import opened Replays
  import Expiries

  // ---------- one submit ----------

  /** Each fill names the two orders, the resting price and the size, and counts down what is left. */
  lemma {:induction false} FillsSay(side: Side, trades: seq<Trade>, rem: nat, i: nat)
    requires Traded(trades) <= rem && i < |trades|
    ensures |FillEvents(side, trades, rem)| == |trades|
    ensures var u, t := FillEvents(side, trades, rem)[i], trades[i];
      && u.(leaves := 0) == BookUpdate(Fill, side, t.incomingId, t.restingId, t.price, t.quantity, 0, t.seqNo)
      && u.leaves + Traded(trades[..i + 1]) == rem
  {
    var rest := trades[1..];
    FillEventsCount(side, trades, rem);
    assert trades[..i + 1][1..] == rest[..i];
    if i > 0 {
      FillsSay(side, rest, rem - trades[0].quantity, i - 1);
      assert rest[..i - 1 + 1] == rest[..i];
    }
  }

  /**
   The whole report of a submit: one rejection if it is turned away; otherwise one fill for each trade and, if a
   remainder is left to rest, its acknowledgement, after a rejection when every slot is taken.
   */
  lemma SubmitSays(slots: nat, b: Book, r: Request, n: nat)
    requires Good(b)
    ensures var o, us := Submit(Pooled(slots), b, r, n), SubmitEvents(slots, b, r, n);
      var m, rest := |o.trades|, o.result.resting;
      var full := |b.On(r.side)| + |o.book.On(r.side.Opposite())| >= slots;
      if !o.result.accepted then us == [BookUpdate(Rejected, r.side, r.id, 0, r.price, r.qty, 0, n)]
      else
        && |us| >= m
        && (forall i :: 0 <= i < m ==>
              var t := o.trades[i];
              && us[i].(leaves := 0) == BookUpdate(Fill, r.side, r.id, t.restingId, t.price, t.quantity, 0, n + i)
              && us[i].leaves + Traded(o.trades[..i + 1]) == r.qty)
        && us[m..] ==
             if rest == 0 then []
             else if full then [BookUpdate(Rejected, r.side, r.id, 0, r.price, rest, 0, n + m),
                                BookUpdate(Ack, r.side, r.id, 0, r.price, rest, rest, n + m + 1)]
             else [BookUpdate(Ack, r.side, r.id, 0, r.price, rest, rest, n + m)]
  {
    hide Sweep, CanFill, Rest, FillEvents, BookOk, Positive, Submit, SubmitEvents, Expiries.PushedBy, NewlyRested, Traded,
         TopCrosses, PriceTimeFill;
    Expiries.SubmitOutline(slots, b, r, n);
    var trades := SweepOf(b, r, n).trades;
    SweepNames(b, r, n);
    RestsOnOwnSide(AfterSweep(b, r, n), OrderOf(r, SweepOf(b, r, n).remaining));
    FillEventsCount(r.side, trades, r.qty);
    forall i | 0 <= i < |trades|
      ensures var u, t := FillEvents(r.side, trades, r.qty)[i], trades[i];
        && u.(leaves := 0) == BookUpdate(Fill, r.side, r.id, t.restingId, t.price, t.quantity, 0, n + i)
        && u.leaves + Traded(trades[..i + 1]) == r.qty
    {
      FillsSay(r.side, trades, r.qty, i);
    }
  }

  lemma SweepNames(b: Book, r: Request, n: nat)
    requires Good(b)
    ensures var trades := SweepOf(b, r, n).trades;
      forall i :: 0 <= i < |trades| ==> trades[i].incomingId == r.id && trades[i].seqNo == n + i
  {
    hide Sweep;
    SweepIsPriceTimeFill(b.On(r.side.Opposite()), TakerOf(r), r.qty, n);
  }

  lemma RestsOnOwnSide(b: Book, o: Order)
    ensures Rest(b, o).On(o.side.Opposite()) == b.On(o.side.Opposite())
  {
  }

  /** A submit never reports a cancel, a replacement or an expiry. */
  lemma SubmitKinds(slots: nat, b: Book, r: Request, n: nat, i: nat)
    requires Good(b) && i < |SubmitEvents(slots, b, r, n)|
    ensures var kind := SubmitEvents(slots, b, r, n)[i].kind; kind.Ack? || kind.Fill? || kind.Rejected?
  {
    hide BookOk, Submit, SubmitEvents;
    SubmitSays(slots, b, r, n);
    var o, us := Submit(Pooled(slots), b, r, n), SubmitEvents(slots, b, r, n);
    if o.result.accepted && i >= |o.trades| {
      assert us[i] == us[|o.trades|..][i - |o.trades|];
    }
  }

  // ---------- a check of the clock ----------

  lemma CancelKeepsOthers(b: Book, id: nat, other: nat)
    requires BookOk(b) && other != id
    ensures Live(Cancel(b, id), other) <==> Live(b, other)
    ensures Live(b, other) ==> Lookup(Cancel(b, id), other) == Lookup(b, other)
  {
    hide BookOk, Find, Cancel, Lookup, Live;
    var w := Cancel(b, id);
    CancelGood(b, id);
    if Live(b, other) {
      Expiries.CancelKeepsLive(b, id, other);
    }
    if Live(w, other) {
      var s, k := WhereLive(w, other);
      LiveAt(w, s, k);
      var at := StoodAt(b, id, s, k);
      LiveAt(b, s, at);
    }
  }

  lemma WhereLive(b: Book, id: nat) returns (side: Side, k: nat)
    requires Live(b, id)
    ensures k < |b.On(side)| && b.On(side)[k].id == id
  {
    hide Find;
    side := SideHolding(b, id);
    k := Find(b.On(side), id);
  }

  /** Where an order left by a cancel stood before it. */
  lemma StoodAt(b: Book, id: nat, side: Side, k: nat) returns (at: nat)
    requires k < |Cancel(b, id).On(side)|
    ensures at < |b.On(side)| && b.On(side)[at] == Cancel(b, id).On(side)[k]
  {
    hide Find;
    at := k;
    if Live(b, id) && side == SideHolding(b, id) {
      RemoveAtIndex(b.On(side), Find(b.On(side), id));
      at := if k < Find(b.On(side), id) then k else k + 1;
    }
  }

  /** The report of an expiry: side, price and size the book held, nothing left. */
  predicate ReportsExpiry(b: Book, u: BookUpdate) {
    && Live(b, u.orderId)
    && var o := Lookup(b, u.orderId); u == BookUpdate(Expired, o.side, o.id, 0, o.price, o.remaining, 0, u.seqNo)
  }

  /** A check reports each order it takes out, once, as the book held it, and nothing else. */
  lemma {:induction false} ExpirySays(b: Book, gone: seq<nat>, n: nat, us: seq<BookUpdate>)
    requires BookOk(b) && us == ExpireEvents(b, gone, n)
    ensures forall i :: 0 <= i < |us| ==> us[i].orderId in gone && ReportsExpiry(b, us[i]) && us[i].seqNo == n + i
    ensures forall id :: id in gone && Live(b, id) ==> exists i :: 0 <= i < |us| && us[i].orderId == id
    ensures forall i, j :: 0 <= i < j < |us| ==> us[i].orderId != us[j].orderId
    decreases |gone|
  {
    hide BookOk, Live, Lookup, Cancel;
    if gone != [] {
      var id, rest := gone[0], gone[1..];
      if Live(b, id) {
        var c := Cancel(b, id);
        var vs := ExpireEvents(c, rest, n + 1);
        CancelGood(b, id);
        ExpirySays(c, rest, n + 1, vs);
        LookupId(b, id);
        assert us[0].orderId == id && us[1..] == vs;
        forall i | 1 <= i < |us|
          ensures us[i] == vs[i - 1] && us[i].orderId in gone && us[i].orderId != id && ReportsExpiry(b, us[i])
        {
          assert us[i] == vs[i - 1] && us[i].orderId in rest && ReportsExpiry(c, vs[i - 1]);
          CancelKeepsOthers(b, id, us[i].orderId);
        }
        forall x | x in gone && Live(b, x)
          ensures exists i :: 0 <= i < |us| && us[i].orderId == x
        {
          if x == id {
            assert us[0].orderId == x;
          } else {
            CancelKeepsOthers(b, id, x);
            var i :| 0 <= i < |vs| && vs[i].orderId == x;
            assert us[i + 1].orderId == x;
          }
        }
      } else {
        ExpirySays(b, rest, n, us);
      }
    }
  }

  // ---------- whole histories ----------

  /** Where in the stream the events of the `i`-th step begin. */
  function Mark(slots: nat, hs: seq<Happening>, i: nat): nat
    requires i <= |hs|
  {
    |Stream(slots, hs[..i])|
  }

  /** The book the `i`-th step finds. */
  function Found(slots: nat, hs: seq<Happening>, i: nat): Book
    requires i <= |hs|
  {
    After(slots, hs[..i]).book
  }

  lemma {:induction false} LegalStart(slots: nat, ticks: nat, hs: seq<Happening>, i: nat)
    requires i <= |hs| && LegalHistory(slots, ticks, hs)
    ensures LegalHistory(slots, ticks, hs[..i])
    decreases |hs|
  {
    if i < |hs| {
      assert AllButLast(hs)[..i] == hs[..i];
      LegalStart(slots, ticks, AllButLast(hs), i);
    } else {
      assert hs[..i] == hs;
    }
  }

  lemma {:induction false} StreamStarts(slots: nat, hs: seq<Happening>, i: nat)
    requires i <= |hs|
    ensures Stream(slots, hs[..i]) <= Stream(slots, hs)
    decreases |hs|
  {
    if i < |hs| {
      assert AllButLast(hs)[..i] == hs[..i];
      StreamStarts(slots, AllButLast(hs), i);
    } else {
      assert hs[..i] == hs;
    }
  }

  /** The stream between two marks is what that step reports, numbered from its mark. */
  lemma StepReports(slots: nat, ticks: nat, hs: seq<Happening>, i: nat)
    requires LegalHistory(slots, ticks, hs) && i < |hs|
    ensures Mark(slots, hs, i) <= Mark(slots, hs, i + 1) <= |Stream(slots, hs)|
    ensures Stream(slots, hs)[Mark(slots, hs, i)..Mark(slots, hs, i + 1)] ==
            EventsOf(slots, State(Found(slots, hs, i), Mark(slots, hs, i)), hs[i])
    ensures Good(Found(slots, hs, i)) && LegalNext(ticks, Found(slots, hs, i), hs[i])
  {
    hide EventsOf, Next, Good, LegalNext, Stream, After, LegalHistory;
    StreamGrows(slots, ticks, hs, i);
    LegalStart(slots, ticks, hs, i + 1);
    LegalStart(slots, ticks, hs, i);
    StreamNumbered(slots, ticks, hs[..i]);
    StreamStarts(slots, hs, i + 1);
    var a, c := Stream(slots, hs[..i]), Stream(slots, hs[..i + 1]);
    assert Stream(slots, hs)[..|c|] == c && c[|a|..] == EventsOf(slots, After(slots, hs[..i]), hs[i]);
  }

  lemma StreamGrows(slots: nat, ticks: nat, hs: seq<Happening>, i: nat)
    requires i < |hs|
    ensures Stream(slots, hs[..i + 1]) ==
            Stream(slots, hs[..i]) + EventsOf(slots, After(slots, hs[..i]), hs[i])
    ensures LegalHistory(slots, ticks, hs[..i + 1]) ==> LegalNext(ticks, After(slots, hs[..i]).book, hs[i])
  {
    hide EventsOf, Next, LegalNext;
    assert AllButLast(hs[..i + 1]) == hs[..i] && Last(hs[..i + 1]) == hs[i];
  }

  /** Every event of the stream comes from one step. */
  lemma {:induction false} SomeStep(slots: nat, ticks: nat, hs: seq<Happening>, j: nat) returns (i: nat)
    requires LegalHistory(slots, ticks, hs) && j < |Stream(slots, hs)|
    ensures i < |hs| && Mark(slots, hs, i) <= j < Mark(slots, hs, i + 1)
  {
    hide EventsOf, Next, LegalNext;
    i := 0;
    assert hs[..0] == [] && hs[..|hs|] == hs;
    while Mark(slots, hs, i + 1) <= j
      invariant i < |hs| && Mark(slots, hs, i) <= j
      decreases |hs| - i
    {
      i := i + 1;
    }
  }

  /** Step `i` is a cancel, or a modify to size zero, of an order that rests. */
  predicate CancelsAt(slots: nat, hs: seq<Happening>, i: nat, id: nat) {
    && i < |hs| && hs[i].Command? && Live(Found(slots, hs, i), id)
    && (hs[i].c == Cancellation(id) || (hs[i].c.Modification? && hs[i].c.id == id && hs[i].c.qty == 0))
  }

  /** Step `i` is a modify of an order that rests, at its price and to no larger size. */
  predicate ResizesAt(slots: nat, hs: seq<Happening>, i: nat, id: nat, qty: nat) {
    && i < |hs| && hs[i].Command? && Live(Found(slots, hs, i), id)
    && hs[i].c == Modification(id, Lookup(Found(slots, hs, i), id).price, qty)
    && 0 < qty <= Lookup(Found(slots, hs, i), id).remaining
  }

  /** Step `i` is a check of the clock that takes an order out. */
  predicate ExpiresAt(slots: nat, hs: seq<Happening>, i: nat, id: nat) {
    i < |hs| && hs[i].Expiry? && id in hs[i].gone && Live(Found(slots, hs, i), id)
  }

  /** What the one step reports, for the four kinds of step that are not submits. */
  lemma StepSays(slots: nat, s: State, h: Happening)
    requires Good(s.book)
    ensures var us, n := EventsOf(slots, s, h), s.seqNo;
      match h
      case Expiry(gone) => us == ExpireEvents(s.book, gone, n)
      case Command(Submission(r)) => us == SubmitEvents(slots, s.book, r, n)
      case Command(Cancellation(id)) =>
        us == if !Live(s.book, id) then []
              else var o := Lookup(s.book, id); [BookUpdate(Canceled, o.side, id, 0, o.price, 0, 0, n)]
      case Command(Modification(id, price, qty)) =>
        us == if !Live(s.book, id) then []
              else
                var o := Lookup(s.book, id);
                if qty == 0 then [BookUpdate(Canceled, o.side, id, 0, o.price, 0, 0, n)]
                else if price == o.price && qty <= o.remaining then
                  [BookUpdate(Replaced, o.side, id, 0, o.price, qty, qty, n)]
                else
                  SubmitEvents(slots, Cancel(s.book, id), Request(id, o.side, Limit, price, qty, o.owner, o.tif, o.expiry), n)
  {
    hide SubmitEvents, ExpireEvents, Live, Lookup, Cancel, BookOk;
  }

  /** A cancel is reported where it happens: the order's side and price, no size, nothing left. */
  lemma CancelReported(slots: nat, ticks: nat, hs: seq<Happening>, i: nat, id: nat)
    requires LegalHistory(slots, ticks, hs) && CancelsAt(slots, hs, i, id)
    ensures var o, j := Lookup(Found(slots, hs, i), id), Mark(slots, hs, i);
      && Mark(slots, hs, i + 1) == j + 1 <= |Stream(slots, hs)|
      && Stream(slots, hs)[j] == BookUpdate(Canceled, o.side, id, 0, o.price, 0, 0, j)
  {
    hide Stream, After, EventsOf, LegalHistory, Live, Lookup, Good, LegalNext;
    StepReports(slots, ticks, hs, i);
    StepSays(slots, State(Found(slots, hs, i), Mark(slots, hs, i)), hs[i]);
    FirstOf(Stream(slots, hs), Mark(slots, hs, i), Mark(slots, hs, i + 1));
  }

  /** A resize is reported where it happens: the order's side and price, and the new size twice. */
  lemma ResizeReported(slots: nat, ticks: nat, hs: seq<Happening>, i: nat, id: nat, qty: nat)
    requires LegalHistory(slots, ticks, hs) && ResizesAt(slots, hs, i, id, qty)
    ensures var o, j := Lookup(Found(slots, hs, i), id), Mark(slots, hs, i);
      && Mark(slots, hs, i + 1) == j + 1 <= |Stream(slots, hs)|
      && Stream(slots, hs)[j] == BookUpdate(Replaced, o.side, id, 0, o.price, qty, qty, j)
  {
    hide Stream, After, EventsOf, LegalHistory, Live, Lookup, Good, LegalNext;
    StepReports(slots, ticks, hs, i);
    StepSays(slots, State(Found(slots, hs, i), Mark(slots, hs, i)), hs[i]);
    FirstOf(Stream(slots, hs), Mark(slots, hs, i), Mark(slots, hs, i + 1));
  }

  lemma FirstOf<T>(s: seq<T>, a: nat, c: nat)
    requires a <= c <= |s|
    ensures |s[a..c]| == c - a && forall j :: a <= j < c ==> s[j] == s[a..c][j - a]
  {
  }

  /** An expiry is reported where it happens, exactly once: the order's side, price and size, nothing left. */
  lemma ExpiryReported(slots: nat, ticks: nat, hs: seq<Happening>, i: nat, id: nat) returns (j: nat)
    requires LegalHistory(slots, ticks, hs) && ExpiresAt(slots, hs, i, id)
    ensures Mark(slots, hs, i) <= j < Mark(slots, hs, i + 1) <= |Stream(slots, hs)|
    ensures var o := Lookup(Found(slots, hs, i), id);
      Stream(slots, hs)[j] == BookUpdate(Expired, o.side, id, 0, o.price, o.remaining, 0, j)
    ensures forall k :: Mark(slots, hs, i) <= k < Mark(slots, hs, i + 1) && Stream(slots, hs)[k].orderId == id ==> k == j
  {
    hide Stream, After, EventsOf, LegalHistory, Live, Lookup, BookOk, LegalNext, ExpireEvents;
    var b, a, c := Found(slots, hs, i), Mark(slots, hs, i), Mark(slots, hs, i + 1);
    StepReports(slots, ticks, hs, i);
    StepSays(slots, State(b, a), hs[i]);
    var us := Stream(slots, hs)[a..c];
    ExpirySays(b, hs[i].gone, a, us);
    FirstOf(Stream(slots, hs), a, c);
    LookupId(b, id);
    var k :| 0 <= k < |us| && us[k].orderId == id;
    j := a + k;
  }

  /** Canceled, Replaced and Expired appear in the stream for no other reason. */
  lemma EveryReportIsTrue(slots: nat, ticks: nat, hs: seq<Happening>, j: nat) returns (i: nat)
    requires LegalHistory(slots, ticks, hs) && j < |Stream(slots, hs)|
    ensures i < |hs| && Mark(slots, hs, i) <= j < Mark(slots, hs, i + 1)
    ensures var u := Stream(slots, hs)[j];
      && (u.kind.Canceled? <==> CancelsAt(slots, hs, i, u.orderId) && Mark(slots, hs, i) == j)
      && (u.kind.Replaced? <==> ResizesAt(slots, hs, i, u.orderId, u.leaves) && Mark(slots, hs, i) == j)
      && (u.kind.Expired? <==> ExpiresAt(slots, hs, i, u.orderId))
  {
    hide Stream, After, EventsOf, LegalHistory, Live, Lookup, BookOk, LegalNext, ExpireEvents, SubmitEvents, Cancel,
         Positive;
    i := SomeStep(slots, ticks, hs, j);
    var b, a, c := Found(slots, hs, i), Mark(slots, hs, i), Mark(slots, hs, i + 1);
    StepReports(slots, ticks, hs, i);
    StepSays(slots, State(b, a), hs[i]);
    FirstOf(Stream(slots, hs), a, c);
    var us := Stream(slots, hs)[a..c];
    match hs[i]
    case Expiry(gone) => ExpirySays(b, gone, a, us);
    case Command(Submission(r)) => SubmitKinds(slots, b, r, a, j - a);
    case Command(Cancellation(id)) =>
    case Command(Modification(id, price, qty)) =>
      if Live(b, id) {
        LookupId(b, id);
        if qty > 0 && !(price == Lookup(b, id).price && qty <= Lookup(b, id).remaining) {
          var o := Lookup(b, id);
          CancelGood(b, id);
          SubmitKinds(slots, Cancel(b, id), Request(id, o.side, Limit, price, qty, o.owner, o.tif, o.expiry), a, j - a);
        }
      }
  }
}
