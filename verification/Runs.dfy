/** Whole runs of commands: what holds in every reachable state, and when the two engines stay together. */
module Runs {
  import opened Types
  import opened BookSpec
  import opened SweepTheorems
  import opened BookInvariants
  import opened BookTheorems

  datatype Command =
    | Submission(r: Request)
    | Cancellation(id: nat)
    | Modification(id: nat, price: int, qty: nat)

  datatype State = State(book: Book, seqNo: nat)

  datatype Reply =
    | Executed(result: ExecResult, trades: seq<Trade>)
    | Cancelled(found: bool)

  const EMPTY := State(Book([], []), 0)

  function Step(e: Engine, s: State, c: Command): (State, Reply) {
    match c
    case Submission(r) =>
      var o := Submit(e, s.book, r, s.seqNo);
      (State(o.book, s.seqNo + |o.trades|), Executed(o.result, o.trades))
    case Cancellation(id) =>
      (State(Cancel(s.book, id), s.seqNo), Cancelled(Live(s.book, id)))
    case Modification(id, price, qty) =>
      var o := Modify(e, s.book, id, price, qty, s.seqNo);
      (State(o.book, s.seqNo + |o.trades|), Executed(o.result, o.trades))
  }

  function AllButLast<T>(s: seq<T>): seq<T>
    requires s != []
  {
    s[..|s| - 1]
  }

  function Last<T>(s: seq<T>): T
    requires s != []
  {
    s[|s| - 1]
  }

  function StateAfter(e: Engine, cmds: seq<Command>): State {
    if cmds == [] then EMPTY else Step(e, StateAfter(e, AllButLast(cmds)), Last(cmds)).0
  }

  function Replies(e: Engine, cmds: seq<Command>): seq<Reply> {
    if cmds == [] then []
    else Replies(e, AllButLast(cmds)) + [Step(e, StateAfter(e, AllButLast(cmds)), Last(cmds)).1]
  }

  // ---------- legality ----------

  predicate Legal(ticks: nat, b: Book, c: Command) {
    match c
    case Submission(r) => LegalSubmit(b, r) && (r.kind.Limit? ==> r.price < ticks)
    case Cancellation(_) => true
    case Modification(id, price, qty) => LegalModify(b, id, price, qty) && (Live(b, id) && qty > 0 ==> price < ticks)
  }

  predicate LegalRun(e: Engine, ticks: nat, cmds: seq<Command>) {
    cmds == [] ||
    (LegalRun(e, ticks, AllButLast(cmds)) && Legal(ticks, StateAfter(e, AllButLast(cmds)).book, Last(cmds)))
  }

  lemma StepGood(e: Engine, ticks: nat, s: State, c: Command)
    requires Good(s.book) && Legal(ticks, s.book, c)
    ensures Good(Step(e, s, c).0.book)
  {
    match c
    case Submission(r) => SubmitGood(e, s.book, r, s.seqNo);
    case Cancellation(id) => CancelGood(s.book, id);
    case Modification(id, price, qty) => ModifyGood(e, s.book, id, price, qty, s.seqNo);
  }

  /** Every reachable book is sorted, uncrossed, free of duplicates and holds no empty order. */
  lemma {:induction false} ReachableGood(e: Engine, ticks: nat, cmds: seq<Command>)
    requires LegalRun(e, ticks, cmds)
    ensures Good(StateAfter(e, cmds).book)
  {
    if cmds != [] {
      ReachableGood(e, ticks, AllButLast(cmds));
      StepGood(e, ticks, StateAfter(e, AllButLast(cmds)), Last(cmds));
    }
  }

  /** No step takes the book over the pool's capacity. */
  lemma StepCount(slots: nat, ticks: nat, s: State, c: Command)
    requires Good(s.book) && Legal(ticks, s.book, c) && s.book.Count() <= slots
    ensures Step(Pooled(slots), s, c).0.book.Count() <= slots
  {
    match c
    case Submission(r) => SubmitCount(s.book, slots, r, s.seqNo);
    case Cancellation(id) => CancelGood(s.book, id);
    case Modification(id, price, qty) => ModifyCount(s.book, slots, id, price, qty, s.seqNo);
  }

  lemma {:induction false} ReachableFits(slots: nat, ticks: nat, cmds: seq<Command>)
    requires LegalRun(Pooled(slots), ticks, cmds)
    ensures StateAfter(Pooled(slots), cmds).book.Count() <= slots
  {
    if cmds != [] {
      ReachableFits(slots, ticks, AllButLast(cmds));
      ReachableGood(Pooled(slots), ticks, AllButLast(cmds));
      StepCount(slots, ticks, StateAfter(Pooled(slots), AllButLast(cmds)), Last(cmds));
    }
  }

  /** The same, spelled out: no bid meets an ask, each side runs from best to worst, no id twice, no empty order. */
  lemma ReachablePlainly(e: Engine, ticks: nat, cmds: seq<Command>)
    requires LegalRun(e, ticks, cmds)
    ensures var b := StateAfter(e, cmds).book;
      && (forall i, j :: 0 <= i < |b.bids| && 0 <= j < |b.asks| ==>
            b.bids[i].price < b.asks[j].price && b.bids[i].id != b.asks[j].id)
      && (forall i, j :: 0 <= i < j < |b.bids| ==> b.bids[i].price >= b.bids[j].price && b.bids[i].id != b.bids[j].id)
      && (forall i, j :: 0 <= i < j < |b.asks| ==> b.asks[i].price <= b.asks[j].price && b.asks[i].id != b.asks[j].id)
      && (forall i :: 0 <= i < |b.bids| ==> b.bids[i].side.Buy? && b.bids[i].remaining > 0)
      && (forall i :: 0 <= i < |b.asks| ==> b.asks[i].side.Sell? && b.asks[i].remaining > 0)
  {
    hide StateAfter, LegalRun;
    ReachableGood(e, ticks, cmds);
    var b := StateAfter(e, cmds).book;
    assert forall i, j :: 0 <= i < j < |b.bids| ==> NotWorse(Buy, b.bids[i].price, b.bids[j].price);
    assert forall i, j :: 0 <= i < j < |b.asks| ==> NotWorse(Sell, b.asks[i].price, b.asks[j].price);
  }

  lemma {:induction false} LegalPrefix(e: Engine, ticks: nat, cmds: seq<Command>, i: nat)
    requires i <= |cmds| && LegalRun(e, ticks, cmds)
    ensures LegalRun(e, ticks, cmds[..i])
    decreases |cmds|
  {
    if i < |cmds| {
      assert AllButLast(cmds)[..i] == cmds[..i];
      LegalPrefix(e, ticks, AllButLast(cmds), i);
    } else {
      assert cmds[..i] == cmds;
    }
  }

  /** The `i`-th command of a legal run, in the state it finds. */
  lemma NextCommand(e: Engine, ticks: nat, cmds: seq<Command>, i: nat)
    requires i < |cmds| && LegalRun(e, ticks, cmds)
    ensures AllButLast(cmds[..i + 1]) == cmds[..i] && Last(cmds[..i + 1]) == cmds[i]
    ensures Legal(ticks, StateAfter(e, cmds[..i]).book, cmds[i])
    ensures StateAfter(e, cmds[..i + 1]) == Step(e, StateAfter(e, cmds[..i]), cmds[i]).0
    ensures Good(StateAfter(e, cmds[..i]).book)
  {
    hide Step, Legal, Good;
    assert AllButLast(cmds[..i + 1]) == cmds[..i];
    LegalPrefix(e, ticks, cmds, i + 1);
    LegalPrefix(e, ticks, cmds, i);
    ReachableGood(e, ticks, cmds[..i]);
  }

  lemma StartsEmpty(e: Engine)
    ensures StateAfter(e, []) == State(Book([], []), 0)
  {
  }

  // ---------- the engines over whole runs ----------

  /** The command is outside both corners in which the engines differ. */
  predicate Fits(slots: nat, b: Book, c: Command) {
    c.Submission? ==> !ZeroFok(b, c.r) && !NoSlot(b, slots, c.r)
  }

  predicate FitsRun(slots: nat, cmds: seq<Command>) {
    cmds == [] ||
    (FitsRun(slots, AllButLast(cmds)) && Fits(slots, StateAfter(Reference, AllButLast(cmds)).book, Last(cmds)))
  }

  /** The engines are in the same state and have given the same replies after every prefix. */
  predicate InLockstep(slots: nat, cmds: seq<Command>) {
    && StateAfter(Pooled(slots), cmds) == StateAfter(Reference, cmds)
    && Replies(Pooled(slots), cmds) == Replies(Reference, cmds)
    && (cmds != [] ==> InLockstep(slots, AllButLast(cmds)))
  }

  lemma StepAgrees(slots: nat, ticks: nat, s: State, c: Command)
    requires Good(s.book) && Legal(ticks, s.book, c) && s.book.Count() <= slots
    ensures Step(Pooled(slots), s, c) == Step(Reference, s, c) <==> Fits(slots, s.book, c)
  {
    match c
    case Submission(r) => SubmitAgrees(s.book, slots, r, s.seqNo);
    case Cancellation(_) =>
    case Modification(id, price, qty) => ModifyAgrees(s.book, slots, id, price, qty, s.seqNo);
  }

  lemma LegalInLockstep(slots: nat, ticks: nat, cmds: seq<Command>)
    requires LegalRun(Reference, ticks, cmds) && InLockstep(slots, cmds)
    ensures LegalRun(Pooled(slots), ticks, cmds)
  {
    if cmds != [] {
      LegalInLockstep(slots, ticks, AllButLast(cmds));
    }
  }

  /** The pooled book runs in lockstep with the reference exactly on the runs that stay clear of both corners. */
  lemma {:induction false} LockstepExactly(slots: nat, ticks: nat, cmds: seq<Command>)
    requires LegalRun(Reference, ticks, cmds)
    ensures InLockstep(slots, cmds) <==> FitsRun(slots, cmds)
  {
    if cmds != [] {
      var init := AllButLast(cmds);
      LockstepExactly(slots, ticks, init);
      if InLockstep(slots, init) {
        LegalInLockstep(slots, ticks, init);
        ReachableGood(Reference, ticks, init);
        ReachableFits(slots, ticks, init);
        StepAgrees(slots, ticks, StateAfter(Reference, init), Last(cmds));
        LastReply(Reference, cmds);
        LastReply(Pooled(slots), cmds);
      }
    }
  }

  lemma LastReply(e: Engine, cmds: seq<Command>)
    requires cmds != []
    ensures Replies(e, cmds) != []
    ensures AllButLast(Replies(e, cmds)) == Replies(e, AllButLast(cmds))
    ensures Last(Replies(e, cmds)) == Step(e, StateAfter(e, AllButLast(cmds)), Last(cmds)).1
  {
  }

  // ---------- conservation over whole runs ----------

  /** Sizes booked over a run: submitted, traded, taken back or thrown away, and lost to a full pool. */
  datatype Ledger = Ledger(submitted: nat, traded: nat, withdrawn: nat, dropped: nat)

  function BookSubmit(e: Engine, s: State, b: Book, r: Request, l: Ledger): Ledger {
    var o := Submit(e, b, r, s.seqNo);
    Ledger(l.submitted + r.qty,
           l.traded + o.result.filled,
           l.withdrawn + if o.result.filled + o.result.resting <= r.qty then r.qty - o.result.filled - o.result.resting else 0,
           l.dropped + if Rests(b, r, s.seqNo) && !HasRoom(e, AfterSweep(b, r, s.seqNo)) then o.result.resting else 0)
  }

  function BookStep(e: Engine, s: State, c: Command, l: Ledger): Ledger {
    match c
    case Submission(r) => BookSubmit(e, s, s.book, r, l)
    case Cancellation(id) =>
      if Live(s.book, id) then l.(withdrawn := l.withdrawn + Lookup(s.book, id).remaining) else l
    case Modification(id, price, qty) =>
      if !Live(s.book, id) then l
      else
        var o := Lookup(s.book, id);
        if ShrinksInPlace(o, price, qty) || qty == 0 then
          l.(withdrawn := l.withdrawn + if qty <= o.remaining then o.remaining - qty else 0)
        else
          BookSubmit(e, s, Cancel(s.book, id), Resubmission(o, price, qty),
                     l.(withdrawn := l.withdrawn + o.remaining))
  }

  function LedgerAfter(e: Engine, cmds: seq<Command>): Ledger {
    if cmds == [] then Ledger(0, 0, 0, 0)
    else BookStep(e, StateAfter(e, AllButLast(cmds)), Last(cmds), LedgerAfter(e, AllButLast(cmds)))
  }

  /** Each traded unit takes one unit from each of two orders; every other unit is accounted for once. */
  predicate Balanced(b: Book, l: Ledger) {
    l.submitted == 2 * l.traded + BookTotal(b) + l.withdrawn + l.dropped
  }

  lemma SubmitBalances(e: Engine, s: State, b: Book, r: Request, l: Ledger)
    requires Good(b) && Balanced(b, l)
    ensures Balanced(Submit(e, b, r, s.seqNo).book, BookSubmit(e, s, b, r, l))
  {
    SubmitConserves(e, b, r, s.seqNo);
    if Rests(b, r, s.seqNo) && !HasRoom(e, AfterSweep(b, r, s.seqNo)) {
      SubmitConserves(Reference, b, r, s.seqNo);
      SweepConserves(b.On(r.side.Opposite()), TakerOf(r), r.qty, s.seqNo);
    }
  }

  lemma StepBalances(e: Engine, s: State, c: Command, l: Ledger)
    requires Good(s.book) && Balanced(s.book, l)
    ensures Balanced(Step(e, s, c).0.book, BookStep(e, s, c, l))
  {
    match c
    case Submission(r) => SubmitBalances(e, s, s.book, r, l);
    case Cancellation(id) =>
      if Live(s.book, id) {
        CancelConserves(s.book, id);
      }
    case Modification(id, price, qty) =>
      if Live(s.book, id) {
        CancelConserves(s.book, id);
        CancelGood(s.book, id);
        var o := Lookup(s.book, id);
        if qty > 0 {
          if ShrinksInPlace(o, price, qty) {
            ResizeConserves(s.book, id, qty);
          } else {
            SubmitBalances(e, s, Cancel(s.book, id), Resubmission(o, price, qty),
                           l.(withdrawn := l.withdrawn + o.remaining));
          }
        }
      }
  }

  /** Over any legal run nothing is made or lost, save what a full pool dropped. */
  lemma {:induction false} RunBalances(e: Engine, ticks: nat, cmds: seq<Command>)
    requires LegalRun(e, ticks, cmds)
    ensures Balanced(StateAfter(e, cmds).book, LedgerAfter(e, cmds))
    ensures e.Reference? ==> LedgerAfter(e, cmds).dropped == 0
  {
    if cmds != [] {
      RunBalances(e, ticks, AllButLast(cmds));
      ReachableGood(e, ticks, AllButLast(cmds));
      StepBalances(e, StateAfter(e, AllButLast(cmds)), Last(cmds), LedgerAfter(e, AllButLast(cmds)));
    }
  }

  // ---------- trade numbers over whole runs ----------

  /** All trades of a run, in the order they were made. */
  function Tape(e: Engine, cmds: seq<Command>): seq<Trade> {
    if cmds == [] then []
    else
      var reply := Step(e, StateAfter(e, AllButLast(cmds)), Last(cmds)).1;
      Tape(e, AllButLast(cmds)) + if reply.Executed? then reply.trades else []
  }

  lemma {:induction false} SweepNumbered(q: seq<Order>, t: Taker, rem: nat, n: nat, i: nat)
    requires i < |Sweep(q, t, rem, n).trades|
    ensures Sweep(q, t, rem, n).trades[i].seqNo == n + i
  {
    if i > 0 {
      assert Sweep(q, t, rem, n).trades[1..] == Sweep(q[1..], t, rem - q[0].remaining, n + 1).trades;
      SweepNumbered(q[1..], t, rem - q[0].remaining, n + 1, i - 1);
    }
  }

  lemma SubmitNumbers(e: Engine, b: Book, r: Request, n: nat, i: nat)
    requires i < |Submit(e, b, r, n).trades|
    ensures Submit(e, b, r, n).trades[i].seqNo == n + i
  {
    hide Sweep, CanFill, Rest;
    SweepNumbered(b.On(r.side.Opposite()), TakerOf(r), r.qty, n, i);
  }

  /** The trades of any run carry the numbers 0, 1, 2, ... */
  lemma {:induction false} RunNumbered(e: Engine, cmds: seq<Command>, i: nat)
    requires i < |Tape(e, cmds)|
    ensures Tape(e, cmds)[i].seqNo == i
  {
    hide Submit, Cancel, Live, Lookup;
    TapeLength(e, cmds);
    if cmds != [] {
      var init, s := AllButLast(cmds), StateAfter(e, AllButLast(cmds));
      TapeLength(e, init);
      if i < |Tape(e, init)| {
        RunNumbered(e, init, i);
      } else {
        var k := i - |Tape(e, init)|;
        match Last(cmds)
        case Submission(r) => SubmitNumbers(e, s.book, r, s.seqNo, k);
        case Cancellation(_) =>
        case Modification(id, price, qty) =>
          SubmitNumbers(e, Cancel(s.book, id), Resubmission(Lookup(s.book, id), price, qty), s.seqNo, k);
      }
    }
  }

  lemma {:induction false} TapeLength(e: Engine, cmds: seq<Command>)
    ensures |Tape(e, cmds)| == StateAfter(e, cmds).seqNo
  {
    hide Submit, Modify, Cancel, Live;
    if cmds != [] {
      TapeLength(e, AllButLast(cmds));
    }
  }
}
