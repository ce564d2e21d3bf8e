/** PhotonBook and OrderBook side by side: the same results, trades, top of book and depth. */
module TwinChecks {
  import opened Types
  import opened BookSpec
  import opened Runs
  import opened Renumbering
  import opened Pools
  import opened FlatTables
  import opened FlatMaps
  import opened Replays
  import opened Stories
  import opened OrderBooks
  import opened PhotonBooks
  import opened PhotonRuns
  import opened CrossChecks

  // ---------- the two books side by side ----------

  /** Two valid books of the same shape, apart in memory, holding the same orders. */
  ghost predicate Twins(fast: OrderBook, photon: PhotonBook, ticks: nat, slots: nat)
    reads fast.Repr(), photon.Repr()
  {
    && fast.Valid() && photon.Valid() && fast.Repr() !! photon.Repr()
    && fast.ladder.levels.Length == ticks && fast.ladder.pool.nodes.Length == slots
    && photon.ladder.levels.Length == ticks && photon.Slots() == slots
    && fast.Content() == photon.Content()
  }

  method SameDepth(fast: OrderBook, photon: PhotonBook) returns (same: bool)
    requires fast.Valid() && photon.Valid() && fast.ladder.levels.Length == photon.ladder.levels.Length
    ensures same <==> SameView(fast.Content(), photon.Content(), fast.ladder.levels.Length)
  {
    hide OrderBook.Valid, PhotonBook.Valid, BestPrice, SizeAt, OrderBook.Content, PhotonBook.Content, Book.Count;
    var a := fast.BestBid();
    var c := photon.BestBid();
    if a != c { return false; }
    a := fast.BestAsk();
    c := photon.BestAsk();
    if a != c { return false; }
    var n := fast.OpenOrders();
    var m := photon.OpenOrders();
    if n != m { return false; }
    for p := 0 to fast.ladder.levels.Length
      invariant forall q: int :: 0 <= q < p ==>
                  && SizeAt(fast.Content().bids, q) == SizeAt(photon.Content().bids, q)
                  && SizeAt(fast.Content().asks, q) == SizeAt(photon.Content().asks, q)
    {
      n := fast.BidSizeAt(p);
      m := photon.BidSizeAt(p);
      if n != m { return false; }
      n := fast.AskSizeAt(p);
      m := photon.AskSizeAt(p);
      if n != m { return false; }
    }
    return true;
  }

  /** One command to both engines: they stay in the same state and answer alike but for trade numbers. */
  method TwinStep(fast: OrderBook, photon: PhotonBook, ghost ticks: nat, ghost slots: nat, c: Command)
    returns (same: bool, a: Reply, d: Reply)
    requires Twins(fast, photon, ticks, slots) && Legal(ticks, fast.Content(), c) && ProperIds(c)
    requires Misses(fast.Content(), c) ==> photon.index.HasEmpty()
    modifies fast.Repr(), photon.Repr()
    ensures Twins(fast, photon, ticks, slots)
    ensures photon.index.inserts == old(photon.index.inserts) + NewlyRested(slots, old(fast.Content()), c)
    ensures var (s, r) := Step(Pooled(slots), State(old(fast.Content()), old(fast.seqNo)), c);
      same && fast.Content() == s.book && fast.seqNo == s.seqNo && a == r && Plain(d) == Plain(r)
  {
    hide OrderBook.Valid, PhotonBook.Valid, Step, Legal, Misses, ProperIds, EventsOf, NewlyRested;
    StepRenumbered(Pooled(slots), fast.Content(), c, fast.seqNo, photon.seqNo);
    a := ApplyFast(fast, c);
    d := ApplyPhoton(photon, c);
    same := SameDepth(fast, photon);
    same := same && Plain(a) == Plain(d);
  }

  /** The photon book could not answer: an absent id, and no empty slot to tell. */
  method TwinsStuck(fast: OrderBook, photon: PhotonBook, ghost ticks: nat, ghost slots: nat, c: Command)
    returns (yes: bool)
    requires Twins(fast, photon, ticks, slots) && ProperIds(c)
    ensures Twins(fast, photon, ticks, slots)
    ensures yes <==> Misses(fast.Content(), c) && !photon.index.HasEmpty()
  {
    hide OrderBook.Valid, PhotonBook.Valid, Misses, ProperIds, LooksInVain, FlatMap.HasEmpty;
    yes := Stuck(photon, Do(c));
    VainCommand(photon, c);
  }

  /**
   Runs both engines on the same commands and compares results, trades without their numbers, best
   prices, order count and both sizes at every tick. The comparison never fails, and what the photon
   book answered is what the specification answers. The run is cut short only where the source would not come
   back: at the lookup of an absent id in a table without an empty slot, which takes as many orders come
   to rest as the table has slots.
   */
  method TwinCheck(ticks: nat, slots: nat, cmds: seq<Command>)
    returns (ok: bool, replies: seq<Reply>, photon: PhotonBook)
    requires ticks <= MAX_PRICE + 1 && slots <= NULL
    requires LegalRun(Pooled(slots), ticks, cmds) && forall c :: c in cmds ==> ProperIds(c)
    ensures ok && |replies| <= |cmds|
    ensures forall i :: 0 <= i < |replies| ==> Plain(replies[i]) == Plain(ReplyAt(Pooled(slots), cmds, i))
    ensures photon.Valid() && photon.Content() == StateAfter(Pooled(slots), cmds[..|replies|]).book
    ensures |replies| < |cmds| ==>
      && Misses(photon.Content(), cmds[|replies|]) && !photon.index.HasEmpty()
      && RestedSoFar(slots, cmds[..|replies|]) >= CapacityFor(slots)
  {
    hide *;
    var fast;
    fast, photon := NewTwins(ticks, slots);
    StartsEmpty(Pooled(slots));
    NothingRested(slots);
    replies := [];
    assert cmds[..0] == [];
    for i := 0 to |cmds|
      invariant Twins(fast, photon, ticks, slots) && fresh(fast.Repr()) && fresh(photon.Repr())
      invariant State(fast.Content(), fast.seqNo) == StateAfter(Pooled(slots), cmds[..i])
      invariant photon.index.inserts == RestedSoFar(slots, cmds[..i]) && |replies| == i
      invariant forall j :: 0 <= j < i ==> Plain(replies[j]) == Plain(ReplyAt(Pooled(slots), cmds, j))
    {
      NextCommand(Pooled(slots), ticks, cmds, i);
      NextReply(Pooled(slots), cmds, i);
      NextRested(slots, cmds, i);
      TwinParts(fast, photon, ticks, slots);
      assert cmds[i] in cmds;
      var stuck := TwinsStuck(fast, photon, ticks, slots, cmds[i]);
      if stuck {
        return true, replies, photon;
      }
      var same, a, d := TwinStep(fast, photon, ticks, slots, cmds[i]);
      replies := replies + [d];
      if !same {
        return false, replies, photon;
      }
    }
    TwinParts(fast, photon, ticks, slots);
    return true, replies, photon;
  }

  method NewTwins(ticks: nat, slots: nat) returns (fast: OrderBook, photon: PhotonBook)
    requires ticks <= MAX_PRICE + 1 && slots <= NULL
    ensures Twins(fast, photon, ticks, slots) && fresh(fast.Repr()) && fresh(photon.Repr())
    ensures fast.Content() == Book([], []) && fast.seqNo == 0 && photon.index.inserts == 0
  {
    hide OrderBook.Valid, PhotonBook.Valid;
    fast := new OrderBook(ticks, slots);
    photon := new PhotonBook(ticks, slots);
  }

  /** What a run answers to its `i`-th command. */
  ghost function ReplyAt(e: Engine, cmds: seq<Command>, i: nat): Reply
    requires i < |cmds|
  {
    Step(e, StateAfter(e, cmds[..i]), cmds[i]).1
  }

  lemma NextReply(e: Engine, cmds: seq<Command>, i: nat)
    requires i < |cmds|
    ensures ReplyAt(e, cmds, i) == Step(e, StateAfter(e, cmds[..i]), cmds[i]).1
  {
  }

  /** How many orders a run has brought to rest: so many inserts has the table seen. */
  function RestedSoFar(slots: nat, cmds: seq<Command>): nat {
    if cmds == [] then 0
    else RestedSoFar(slots, AllButLast(cmds)) +
         NewlyRested(slots, StateAfter(Pooled(slots), AllButLast(cmds)).book, Last(cmds))
  }

  lemma NothingRested(slots: nat)
    ensures RestedSoFar(slots, []) == 0
  {
  }

  lemma NextRested(slots: nat, cmds: seq<Command>, i: nat)
    requires i < |cmds|
    ensures RestedSoFar(slots, cmds[..i + 1]) ==
            RestedSoFar(slots, cmds[..i]) + NewlyRested(slots, StateAfter(Pooled(slots), cmds[..i]).book, cmds[i])
  {
    assert AllButLast(cmds[..i + 1]) == cmds[..i];
  }

  /** Fewer inserts than slots leave an empty slot. */
  lemma TwinParts(fast: OrderBook, photon: PhotonBook, ticks: nat, slots: nat)
    requires Twins(fast, photon, ticks, slots)
    ensures photon.Valid() && photon.Content() == fast.Content()
    ensures photon.index.inserts < CapacityFor(slots) ==> photon.index.HasEmpty()
  {
    hide Stored, TableOk, EmptyCount, OrderBook.Valid, CapacityFor;
    if photon.index.inserts < CapacityFor(slots) {
      photon.Inside();
      photon.index.BudgetLeavesEmpty();
    }
  }
}
