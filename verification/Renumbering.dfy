/** Trades up to their numbers: where the numbering starts has no say in what a command does. */
module Renumbering {
  import opened Types
  import opened BookSpec
  import opened Runs

  function Unnumbered(trades: seq<Trade>): (w: seq<Trade>)
    ensures |w| == |trades| && forall i :: 0 <= i < |w| ==> w[i] == trades[i].(seqNo := 0)
  {
    seq(|trades|, i requires 0 <= i < |trades| => trades[i].(seqNo := 0))
  }

  function Plain(r: Reply): Reply {
    if r.Executed? then Executed(r.result, Unnumbered(r.trades)) else r
  }

  /** The numbering has no say in what trades. */
  lemma {:induction false} SweepRenumbered(q: seq<Order>, t: Taker, rem: nat, n: nat, m: nat)
    ensures var a, c := Sweep(q, t, rem, n), Sweep(q, t, rem, m);
      a.queue == c.queue && a.remaining == c.remaining && Unnumbered(a.trades) == Unnumbered(c.trades)
  {
    if rem > 0 && q != [] && CanTrade(t, q[0]) && rem >= q[0].remaining {
      SweepRenumbered(q[1..], t, rem - q[0].remaining, n + 1, m + 1);
      var a, c := Sweep(q, t, rem, n).trades, Sweep(q, t, rem, m).trades;
      assert a[1..] == Sweep(q[1..], t, rem - q[0].remaining, n + 1).trades;
      assert c[1..] == Sweep(q[1..], t, rem - q[0].remaining, m + 1).trades;
      TailsAlike(a, c);
    }
  }

  lemma TailsAlike(a: seq<Trade>, c: seq<Trade>)
    requires a != [] && c != [] && a[0].(seqNo := 0) == c[0].(seqNo := 0)
    requires Unnumbered(a[1..]) == Unnumbered(c[1..])
    ensures Unnumbered(a) == Unnumbered(c)
  {
    forall i | 0 <= i < |a|
      ensures |a| == |c| && a[i].(seqNo := 0) == c[i].(seqNo := 0)
    {
      assert |Unnumbered(a[1..])| == |Unnumbered(c[1..])|;
      if i > 0 {
        assert Unnumbered(a[1..])[i - 1] == Unnumbered(c[1..])[i - 1];
      }
    }
  }

  lemma SubmitRenumbered(e: Engine, b: Book, r: Request, n: nat, m: nat)
    ensures var a, c := Submit(e, b, r, n), Submit(e, b, r, m);
      a.book == c.book && a.result == c.result && Unnumbered(a.trades) == Unnumbered(c.trades)
  {
    SweepRenumbered(b.On(r.side.Opposite()), TakerOf(r), r.qty, n, m);
  }

  lemma StepRenumbered(e: Engine, b: Book, c: Command, n: nat, m: nat)
    ensures Step(e, State(b, n), c).0.book == Step(e, State(b, m), c).0.book
    ensures Plain(Step(e, State(b, n), c).1) == Plain(Step(e, State(b, m), c).1)
  {
    hide Submit;
    match c
    case Submission(r) => SubmitRenumbered(e, b, r, n, m);
    case Cancellation(_) =>
    case Modification(id, price, qty) =>
      if Live(b, id) {
        SubmitRenumbered(e, Cancel(b, id), Resubmission(Lookup(b, id), price, qty), n, m);
      }
  }

  /** Nor in what a submit brings to rest. */
  lemma RestRenumbered(b: Book, r: Request, n: nat, m: nat)
    ensures Rests(b, r, n) == Rests(b, r, m) && AfterSweep(b, r, n) == AfterSweep(b, r, m)
    ensures SweepOf(b, r, n).remaining == SweepOf(b, r, m).remaining
  {
    SweepRenumbered(b.On(r.side.Opposite()), TakerOf(r), r.qty, n, m);
  }
}
