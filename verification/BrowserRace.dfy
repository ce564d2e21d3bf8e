/** The four browser books on one order stream: each plays exactly the reference book's game. */
module BrowserRace {
  import opened Types
  import opened BookSpec
  import opened BrowserSteps
  import opened BrowserMaps
  import opened BrowserTrees

  datatype Move = Place(side: Side, price: int, qty: nat) | Pull(id: nat)

  /** All that can be seen of a book: its orders, the id it will hand out next, what it has printed. */
  datatype Board = Board(book: Book, nextId: nat, prints: seq<Print>)

  ghost function Play(s: Board, m: Move): Board {
    match m
    case Place(side, price, qty) =>
      var o := Submit(Reference, s.book, Ask(s.nextId, side, price, qty), 0);
      Board(o.book, s.nextId + 1, s.prints + Prints(o.trades, side))
    case Pull(id) => s.(book := Cancel(s.book, id))
  }

  /** The reference book's game over a whole stream. */
  ghost function Played(moves: seq<Move>): Board {
    if moves == [] then Board(Book([], []), 1, [])
    else Play(Played(moves[..|moves| - 1]), moves[|moves| - 1])
  }

  /** A move on the board, spelled out: a limit order of nobody's, its trades printed as its side's. */
  lemma PlaySpelledOut(s: Board, side: Side, price: int, qty: nat, id: nat)
    ensures Played([]) == Board(Book([], []), 1, [])
    ensures var o, w := Submit(Reference, s.book, Request(s.nextId, side, Limit, price, qty, 0, GTC, 0), 0),
                        Play(s, Place(side, price, qty));
      && w.book == o.book && w.nextId == s.nextId + 1
      && s.prints <= w.prints && |w.prints| == |s.prints| + |o.trades|
      && forall i :: 0 <= i < |o.trades| ==>
           w.prints[|s.prints| + i] == Print(o.trades[i].price, o.trades[i].quantity, side)
    ensures Play(s, Pull(id)) == Board(Cancel(s.book, id), s.nextId, s.prints)
  {
    hide Submit;
  }

  ghost predicate Shows(d: Desk, prints: seq<Print>, s: Board) {
    d.Content() == s.book && d.nextId == s.nextId && prints == s.prints
  }

  lemma PlaceShows(d: Desk, w: Desk, tape: seq<Print>, prints: seq<Print>, s: Board, side: Side, price: int, qty: nat)
    requires Shows(d, tape, s) && tape <= prints
    requires Submitted(d, w, side, price, qty, prints[|tape|..])
    ensures Shows(w, prints, Play(s, Place(side, price, qty)))
  {
    assert prints == tape + prints[|tape|..];
  }

  lemma PullShows(d: Desk, w: Desk, prints: seq<Print>, s: Board, id: nat)
    requires Shows(d, prints, s) && Cancelled(d, w, id)
    ensures Shows(w, prints, Play(s, Pull(id)))
  {
  }

  /** The four books are in order and show the same board. */
  ghost predicate Level(a: OptimizedBook, t: TreeBook, c: NoCacheBook, n: TreeBook, s: Board)
    reads a, t, c, n
  {
    && a.Valid() && t.Valid() && c.Valid() && n.Valid() && t != n
    && Shows(a.Image(), a.prints, s) && Shows(t.Image(), t.prints, s)
    && Shows(c.Image(), c.prints, s) && Shows(n.Image(), n.prints, s)
  }

  /** One move on all four books; `ids` are the ids they hand out. */
  method Apply(a: OptimizedBook, t: TreeBook, c: NoCacheBook, n: TreeBook, ghost s: Board, m: Move)
    returns (ids: seq<nat>)
    requires Level(a, t, c, n, s) && (m.Place? ==> 0 <= m.price <= MAX_PRICE)
    modifies a, t, c, n
    ensures Level(a, t, c, n, Play(s, m))
    ensures ids == if m.Place? then [s.nextId, s.nextId, s.nextId, s.nextId] else []
  {
    hide Sound, Submitted, Cancelled, Desk.Content, Play, OptimizedBook.Valid, NoCacheBook.Valid, TreeBook.Valid;
    ghost var da, dt, dc, dn := a.Image(), t.Image(), c.Image(), n.Image();
    ghost var tape := a.prints;
    match m
    case Place(side, price, qty) =>
      var i := a.Submit(side, price, qty);
      var j := t.Submit(side, price, qty);
      var k := c.Submit(side, price, qty);
      var l := n.Submit(side, price, qty);
      ids := [i, j, k, l];
      PlaceShows(da, a.Image(), tape, a.prints, s, side, price, qty);
      PlaceShows(dt, t.Image(), tape, t.prints, s, side, price, qty);
      PlaceShows(dc, c.Image(), tape, c.prints, s, side, price, qty);
      PlaceShows(dn, n.Image(), tape, n.prints, s, side, price, qty);
    case Pull(id) =>
      a.Cancel(id);
      t.Cancel(id);
      c.Cancel(id);
      n.Cancel(id);
      ids := [];
      PullShows(da, a.Image(), a.prints, s, id);
      PullShows(dt, t.Image(), t.prints, s, id);
      PullShows(dc, c.Image(), c.prints, s, id);
      PullShows(dn, n.Image(), n.prints, s, id);
  }

  /** Best prices, order count, and the sizes at one price. */
  datatype Sight = Sight(bid: Option<int>, ask: Option<int>, orders: nat, bidSize: nat, askSize: nat)

  ghost function SightOf(b: Book, p: int): Sight {
    Sight(BestShown(b, Buy), BestShown(b, Sell), b.Count(), SizeAt(b.bids, p), SizeAt(b.asks, p))
  }

  /** What the four books report. */
  method Look(a: OptimizedBook, t: TreeBook, c: NoCacheBook, n: TreeBook, ghost s: Board, p: int)
    returns (sights: seq<Sight>)
    requires Level(a, t, c, n, s)
    ensures sights == [SightOf(s.book, p), SightOf(s.book, p), SightOf(s.book, p), SightOf(s.book, p)]
  {
    hide Sound, OptimizedBook.Valid, NoCacheBook.Valid, TreeBook.Valid, SizeAt, BestOf, BestShown, Desk.Content;
    var bid := a.BestBid();
    var ask := a.BestAsk();
    var count := a.Orders();
    var bidSize := a.SizeOn(Buy, p);
    var askSize := a.SizeOn(Sell, p);
    sights := [Sight(bid, ask, count, bidSize, askSize)];
    bid := t.BestBid();
    ask := t.BestAsk();
    count := t.Orders();
    bidSize := t.SizeOn(Buy, p);
    askSize := t.SizeOn(Sell, p);
    sights := sights + [Sight(bid, ask, count, bidSize, askSize)];
    bid := c.Best(Buy);
    ask := c.Best(Sell);
    count := c.Orders();
    bidSize := c.SizeOn(Buy, p);
    askSize := c.SizeOn(Sell, p);
    sights := sights + [Sight(bid, ask, count, bidSize, askSize)];
    bid := n.BestBid();
    ask := n.BestAsk();
    count := n.Orders();
    bidSize := n.SizeOn(Buy, p);
    askSize := n.SizeOn(Sell, p);
    sights := sights + [Sight(bid, ask, count, bidSize, askSize)];
  }

  /** Four empty books. */
  method Open() returns (a: OptimizedBook, t: TreeBook, c: NoCacheBook, n: TreeBook)
    ensures Level(a, t, c, n, Played([])) && fresh(a) && fresh(t) && fresh(c) && fresh(n)
    ensures !t.naive && n.naive
  {
    hide OptimizedBook.Valid, NoCacheBook.Valid, TreeBook.Valid;
    ClosedSound();
    a := new OptimizedBook();
    t := new TreeBook(false);
    c := new NoCacheBook();
    n := new TreeBook(true);
  }

  /**
   The shared-stream race: all four books get every submit and cancel. After any stream each shows
   exactly what the reference book's game leads to, so nothing tells them apart on the way.
   */
  method Race(moves: seq<Move>) returns (a: OptimizedBook, t: TreeBook, c: NoCacheBook, n: TreeBook)
    requires forall m :: m in moves && m.Place? ==> 0 <= m.price <= MAX_PRICE
    ensures Level(a, t, c, n, Played(moves)) && !t.naive && n.naive
  {
    hide Level, Play;
    a, t, c, n := Open();
    assert moves[..0] == [];
    for i := 0 to |moves|
      invariant Level(a, t, c, n, Played(moves[..i])) && fresh(a) && fresh(t) && fresh(c) && fresh(n)
    {
      assert moves[i] in moves && moves[..i + 1][..i] == moves[..i];
      var _ := Apply(a, t, c, n, Played(moves[..i]), moves[i]);
    }
    assert moves[..|moves|] == moves;
  }
}
