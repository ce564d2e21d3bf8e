/** The randomized cross-check of the repository as a theorem: both books, every command sequence. */
module CrossChecks {
  import opened Types
  import opened BookSpec
  import opened SweepTheorems
  import opened BookInvariants
  import opened BookTheorems
  import opened Runs
  import opened Pools
  import opened OrderBooks
  import opened RefOrderBooks

  /** Feeds one command to the fast book. */
  method ApplyFast(book: OrderBook, c: Command) returns (reply: Reply)
    requires book.Valid() && Legal(book.ladder.levels.Length, book.Content(), c)
    modifies book.Repr()
    ensures book.Valid()
    ensures var (s, r) := Step(Pooled(book.ladder.pool.nodes.Length), State(old(book.Content()), old(book.seqNo)), c);
      book.Content() == s.book && book.seqNo == s.seqNo && reply == r
  {
    hide OrderBook.Valid, Live, BookSpec.Submit, BookSpec.Modify, BookSpec.Cancel;
    ghost var printed := book.tape;
    match c
    case Submission(r) =>
      var n := |book.tape|;
      var res := book.Submit(r);
      reply := Executed(res, book.tape[n..]);
    case Cancellation(id) =>
      var found := book.Cancel(id);
      reply := Cancelled(found);
    case Modification(id, price, qty) =>
      var n := |book.tape|;
      var res := book.Modify(id, price, qty);
      reply := Executed(res, book.tape[n..]);
  }

  /** Feeds one command to the reference book. */
  method ApplyRef(book: RefOrderBook, c: Command) returns (reply: Reply)
    requires book.Valid() && Legal(MAX_PRICE + 1, book.Content(), c)
    modifies book
    ensures book.Valid()
    ensures var (s, r) := Step(Reference, State(old(book.Content()), old(book.seqNo)), c);
      book.Content() == s.book && book.seqNo == s.seqNo && reply == r
  {
    hide RefOrderBook.Valid, Live, BookSpec.Submit, BookSpec.Modify, BookSpec.Cancel;
    match c
    case Submission(r) =>
      var n := |book.tape|;
      var res := book.Submit(r);
      reply := Executed(res, book.tape[n..]);
    case Cancellation(id) =>
      var found := book.Cancel(id);
      reply := Cancelled(found);
    case Modification(id, price, qty) =>
      var n := |book.tape|;
      var res := book.Modify(id, price, qty);
      reply := Executed(res, book.tape[n..]);
  }

  /** The same top of book, number of orders and size at every tick on both sides. */
  ghost predicate SameView(b: Book, d: Book, ticks: nat) {
    && BestPrice(b.bids) == BestPrice(d.bids) && BestPrice(b.asks) == BestPrice(d.asks)
    && b.Count() == d.Count()
    && forall p: int :: 0 <= p < ticks ==> SizeAt(b.bids, p) == SizeAt(d.bids, p) && SizeAt(b.asks, p) == SizeAt(d.asks, p)
  }

  /** Compares every observable: best prices, number of open orders, both sizes at every tick. */
  method SameObservables(fast: OrderBook, ref: RefOrderBook) returns (same: bool)
    requires fast.Valid() && ref.Valid()
    ensures same <==> SameView(fast.Content(), ref.Content(), fast.ladder.levels.Length)
  {
    hide OrderBook.Valid, RefOrderBook.Valid, BestPrice, SizeAt, OrderBook.Content, RefOrderBook.Content, Book.Count;
    var fb := fast.BestBid();
    var rb := ref.BestBid();
    if fb != rb { return false; }
    fb := fast.BestAsk();
    rb := ref.BestAsk();
    if fb != rb { return false; }
    var fn := fast.OpenOrders();
    var rn := ref.OpenOrders();
    if fn != rn { return false; }
    for p := 0 to fast.ladder.levels.Length
      invariant forall q: int :: 0 <= q < p ==>
                  && SizeAt(fast.Content().bids, q) == SizeAt(ref.Content().bids, q)
                  && SizeAt(fast.Content().asks, q) == SizeAt(ref.Content().asks, q)
    {
      var f := fast.BidSizeAt(p);
      var r := ref.SizeOn(Buy, p);
      if f != r { return false; }
      f := fast.AskSizeAt(p);
      r := ref.SizeOn(Sell, p);
      if f != r { return false; }
    }
    return true;
  }

  /** A dropped order shows at once in the number of open orders. */
  lemma DropShows(slots: nat, ticks: nat, s: State, c: Command)
    requires Good(s.book) && Legal(ticks, s.book, c) && s.book.Count() <= slots
    requires Step(Pooled(slots), s, c).0.book.Count() == Step(Reference, s, c).0.book.Count()
    requires Step(Pooled(slots), s, c).1 == Step(Reference, s, c).1
    ensures Fits(slots, s.book, c)
  {
    if c.Submission? {
      var r := c.r;
      if NoSlot(s.book, slots, r) {
        DropIsSilent(s.book, slots, r, s.seqNo);
        DropsExactly(s.book, slots, r, s.seqNo);
        SweepGood(s.book, r, s.seqNo);
        RestGood(AfterSweep(s.book, r, s.seqNo), OrderOf(r, SweepOf(s.book, r, s.seqNo).remaining));
        NoTopNoSweep(s.book.On(r.side.Opposite()), TakerOf(r), r.qty, s.seqNo);
      }
      FokPreChecksAgree(slots, s.book.On(r.side.Opposite()), TakerOf(r), r.qty);
    }
  }

  lemma {:induction false} FitsPrefix(slots: nat, cmds: seq<Command>, i: nat)
    requires i <= |cmds|
    ensures FitsRun(slots, cmds) ==> FitsRun(slots, cmds[..i])
    decreases |cmds|
  {
    if i < |cmds| {
      assert AllButLast(cmds)[..i] == cmds[..i];
      FitsPrefix(slots, AllButLast(cmds), i);
    } else {
      assert cmds[..i] == cmds;
    }
  }

  lemma OneMore(slots: nat, ticks: nat, cmds: seq<Command>, i: nat)
    requires i < |cmds| && LegalRun(Reference, ticks, cmds)
    ensures FitsRun(slots, cmds[..i + 1]) <==>
            FitsRun(slots, cmds[..i]) && Fits(slots, StateAfter(Reference, cmds[..i]).book, cmds[i])
    ensures FitsRun(slots, cmds) ==> FitsRun(slots, cmds[..i + 1])
  {
    NextCommand(Reference, ticks, cmds, i);
    FitsPrefix(slots, cmds, i + 1);
  }

  /**
   Runs both books side by side and compares everything after every command. The comparison
   succeeds on exactly the command sequences that stay clear of a zero-size FOK without a crossing
   price and of a limit order that must rest in a full pool.
   */
  method CrossCheck(ticks: nat, slots: nat, cmds: seq<Command>) returns (ok: bool)
    requires ticks <= MAX_PRICE + 1 && slots <= NULL
    requires LegalRun(Reference, ticks, cmds)
    ensures ok <==> FitsRun(slots, cmds)
  {
    hide OrderBook.Valid, RefOrderBook.Valid, Step, Fits, FitsRun, LegalRun, StateAfter, Good, Legal;
    var fast := new OrderBook(ticks, slots);
    var ref := new RefOrderBook();
    StartsEmpty(Reference);
    FitsNothing(slots);
    assert cmds[..0] == [];
    for i := 0 to |cmds|
      invariant fast.Valid() && ref.Valid() && fresh(fast.Repr()) && fresh(ref) && ref !in fast.Repr()
      invariant fast.ladder.levels.Length == ticks && fast.ladder.pool.nodes.Length == slots
      invariant State(fast.Content(), fast.seqNo) == State(ref.Content(), ref.seqNo) == StateAfter(Reference, cmds[..i])
      invariant FitsRun(slots, cmds[..i])
    {
      NextCommand(Reference, ticks, cmds, i);
      OneMore(slots, ticks, cmds, i);
      ghost var s := StateAfter(Reference, cmds[..i]);
      CountFits(fast);
      LegalAnyTicks(ticks, s.book, cmds[i]);
      StepAgrees(slots, ticks, s, cmds[i]);
      var a := ApplyFast(fast, cmds[i]);
      var b := ApplyRef(ref, cmds[i]);
      if a != b { return false; }
      var same := SameObservables(fast, ref);
      if !same { return false; }
      DropShows(slots, ticks, s, cmds[i]);
    }
    assert cmds[..|cmds|] == cmds;
    return true;
  }

  lemma FitsNothing(slots: nat)
    ensures FitsRun(slots, [])
  {
  }

  lemma CountFits(book: OrderBook)
    requires book.Valid()
    ensures book.Content().Count() <= book.ladder.pool.nodes.Length
  {
    LadderCount(book.ladder);
  }

  lemma LegalAnyTicks(ticks: nat, b: Book, c: Command)
    requires Legal(ticks, b, c) && ticks <= MAX_PRICE + 1
    ensures Legal(MAX_PRICE + 1, b, c)
  {
  }
}
