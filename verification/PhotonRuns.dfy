/** PhotonBook through whole stories of commands and clock checks. */
module PhotonRuns {
  import opened Types
  import opened BookSpec
  import opened Runs
  import opened Renumbering
  import opened FlatTables
  import opened FlatMaps
  import opened PhotonSpec
  import opened Replays
  import opened Expiries
  import opened Stories
  import opened PhotonBooks

  /** Ids are never the two keys the flat map reserves. */
  predicate ProperIds(c: Command) {
    match c
    case Submission(r) => r.kind.Limit? ==> IsKey(r.id)
    case Cancellation(id) => IsKey(id)
    case Modification(id, _, _) => IsKey(id)
  }

  /** The command looks up an id that does not rest. */
  predicate Misses(b: Book, c: Command) {
    match c
    case Submission(_) => false
    case Cancellation(id) => !Live(b, id)
    case Modification(id, _, _) => !Live(b, id)
  }

  /** Feeds one command to the book; the trades are those its callback sink passes on. */
  method ApplyPhoton(book: PhotonBook, c: Command) returns (reply: Reply)
    requires book.Valid() && Legal(book.ladder.levels.Length, book.Content(), c) && ProperIds(c)
    requires Misses(book.Content(), c) ==> book.index.HasEmpty()
    modifies book.Repr()
    ensures book.Valid()
    ensures var (s, r) := Step(Pooled(book.Slots()), State(old(book.Content()), old(book.seqNo)), c);
      book.Content() == s.book && reply == r
    ensures book.events == old(book.events)
              + EventsOf(book.Slots(), State(old(book.Content()), old(book.seqNo)), Replays.Command(c))
    ensures book.expiryQueue == HeapAfter(book.Slots(), old(book.Content()), old(book.expiryQueue), c)
    ensures book.index.inserts == old(book.index.inserts) + NewlyRested(book.Slots(), old(book.Content()), c)
  {
    hide PhotonBook.Indexed, Live, Submit, Modify, Cancel, SubmitEvents, ModifyEvents, HeapCovers, TradesOf, IsKey,
         ComesToRest, PushedBy;
    ghost var b, n := book.Content(), book.seqNo;
    var sent := |book.events|;
    match c
    case Submission(r) =>
      SubmitTrades(book.Slots(), b, r, n);
      var res := book.Submit(r);
      reply := Executed(res, TradesOf(book.events[sent..]));
    case Cancellation(id) =>
      var found := book.Cancel(id);
      reply := Cancelled(found);
    case Modification(id, price, qty) =>
      ModifyTrades(book.Slots(), b, id, price, qty, n);
      var res := book.Modify(id, price, qty);
      reply := Executed(res, TradesOf(book.events[sent..]));
  }

  // ---------- when the source would not come back ----------

  /** The moment looks up an id that does not rest. */
  ghost predicate LooksInVain(s: Stand, m: Moment) {
    match m
    case Do(c) => Misses(s.book, c)
    case Clock(now) => !AllHit(s.book, s.heap, now)
  }

  lemma VainCommand(book: PhotonBook, c: Command)
    ensures LooksInVain(Stand(book.Content(), book.expiryQueue), Do(c)) <==> Misses(book.Content(), c)
  {
  }

  method HasEmptySlot<V(==)>(t: FlatMap<V>) returns (yes: bool)
    ensures yes <==> t.HasEmpty()
  {
    for i := 0 to t.slots.Length
      invariant forall j :: 0 <= j < i ==> t.slots[j].key != FlatTables.EMPTY
    {
      if t.slots[i].key == FlatTables.EMPTY {
        assert t.slots[..][i].key == FlatTables.EMPTY;
        return true;
      }
    }
    return false;
  }

  /** Whether an id rests, found by looking at every slot of the table. */
  method IsResting(book: PhotonBook, id: nat) returns (yes: bool)
    requires book.Valid() && IsKey(id)
    ensures yes <==> Live(book.Content(), id)
  {
    hide *;
    book.IndexTells(id);
    yes := Holds(book.index, id);
  }

  method Holds<V(==)>(t: FlatMap<V>, k: nat) returns (yes: bool)
    requires t.Valid() && IsKey(k)
    ensures yes <==> k in t.content
  {
    hide EmptyCount, KeyCount, NoKeyTwice, Reachable, IndexOf;
    for i := 0 to t.slots.Length
      invariant forall j :: 0 <= j < i ==> t.slots[j].key != k
    {
      if t.slots[i].key == k {
        EntryAt(t.slots[..], t.shift, t.content, i);
        return true;
      }
    }
    NoSlotNoKey(t.slots[..], t.shift, t.content, k);
    return false;
  }

  lemma NoSlotNoKey<V>(t: Table<V>, shift: nat, m: map<nat, V>, k: nat)
    requires TableOk(t, shift, m) && forall j :: 0 <= j < |t| ==> t[j].key != k
    ensures k !in m
  {
    if k in m {
      var j := SlotOf(t, shift, m, k);
    }
  }

  /** Whether every due entry will find its order, no two the same one. */
  method HitsAll(book: PhotonBook, now: nat) returns (yes: bool)
    requires book.Valid()
    ensures yes <==> AllHit(book.Content(), book.expiryQueue, now)
  {
    hide *;
    var heap := book.expiryQueue;
    var left := heap;
    while left != multiset{}
      invariant forall e :: left[e] == 0 || left[e] == heap[e]
      invariant forall e :: e in heap && e.expiry <= now && e !in left ==>
                  && Live(book.Content(), e.id) && heap[e] == 1
                  && forall f :: f in heap && f.expiry <= now && f.id == e.id ==> f == e
      decreases |left|
    {
      var e :| e in left;
      book.EntryIsKey(e);
      if e.expiry <= now {
        var live := IsResting(book, e.id);
        if !live || heap[e] != 1 || exists f :: f in heap && f.expiry <= now && f.id == e.id && f != e {
          NotAllHit(book.Content(), heap, now, e);
          return false;
        }
      }
      left := left[e := 0];
    }
    AllHitIs(book.Content(), heap, now);
    return true;
  }

  lemma NotAllHit(b: Book, heap: Heap, now: nat, e: ExpiryEntry)
    requires e in heap && e.expiry <= now
    requires !Live(b, e.id) || heap[e] != 1 || exists f :: f in heap && f.expiry <= now && f.id == e.id && f != e
    ensures !AllHit(b, heap, now)
  {
    hide Live;
  }

  lemma AllHitIs(b: Book, heap: Heap, now: nat)
    requires forall e :: e in heap && e.expiry <= now ==>
               && Live(b, e.id) && heap[e] == 1
               && forall f :: f in heap && f.expiry <= now && f.id == e.id ==> f == e
    ensures AllHit(b, heap, now)
  {
    hide Live;
  }

  /** An absent id is about to be looked up in a table without an empty slot: the source's probe would not end. */
  method Stuck(book: PhotonBook, m: Moment) returns (yes: bool)
    requires book.Valid() && (m.Do? ==> ProperIds(m.c))
    ensures yes <==> LooksInVain(Stand(book.Content(), book.expiryQueue), m) && !book.index.HasEmpty()
  {
    hide PhotonBook.Valid, Live, AllHit, FlatMap.HasEmpty, IsKey;
    var empty := HasEmptySlot(book.index);
    if empty {
      return false;
    }
    match m
    case Clock(now) =>
      var all := HitsAll(book, now);
      return !all;
    case Do(c) =>
      match c {
        case Submission(_) => return false;
        case Cancellation(id) =>
          var live := IsResting(book, id);
          return !live;
        case Modification(id, _, _) =>
          var live := IsResting(book, id);
          return !live;
      }
  }

  // ---------- stories ----------

  /** How many orders a story has brought to rest: so many inserts has the table seen. */
  ghost function RestedBy(slots: nat, ms: seq<Moment>): nat {
    if ms == [] then 0
    else RestedBy(slots, AllButLast(ms)) +
         if Last(ms).Do? then NewlyRested(slots, StandAfter(slots, AllButLast(ms)).book, Last(ms).c) else 0
  }

  /** The same moments, with the ids each clock check popped. */
  ghost predicate Plays(slots: nat, ms: seq<Moment>, hs: seq<Happening>) {
    && |hs| == |ms|
    && forall i :: 0 <= i < |ms| ==>
         match ms[i]
         case Do(c) => hs[i] == Replays.Command(c)
         case Clock(now) => hs[i].Expiry? && IdSet(hs[i].gone) == DueIds(StandAfter(slots, ms[..i]).heap, now)
  }

  /** Book, waiting entries and stream are those of the story. */
  ghost predicate Follows(book: PhotonBook, ticks: nat, slots: nat, ms: seq<Moment>, hs: seq<Happening>)
    reads book.Repr()
  {
    && book.Valid() && book.ladder.levels.Length == ticks && book.Slots() == slots
    && Stand(book.Content(), book.expiryQueue) == StandAfter(slots, ms)
    && book.index.inserts == RestedBy(slots, ms)
    && Plays(slots, ms, hs)
    && book.events == Stream(slots, hs) && State(book.Content(), book.seqNo) == After(slots, hs)
  }

  lemma FollowsParts(book: PhotonBook, ticks: nat, slots: nat, ms: seq<Moment>, hs: seq<Happening>)
    requires Follows(book, ticks, slots, ms, hs)
    ensures book.Valid() && book.ladder.levels.Length == ticks && book.Slots() == slots
    ensures Stand(book.Content(), book.expiryQueue) == StandAfter(slots, ms)
    ensures |book.events| == book.seqNo
    ensures RestedBy(slots, ms) < CapacityFor(slots) ==> book.index.HasEmpty()
  {
    hide *;
    FollowsTable(book, ticks, slots, ms, hs);
    if RestedBy(slots, ms) < CapacityFor(slots) {
      book.Inside();
      book.index.BudgetLeavesEmpty();
    }
    book.GoodBook();
  }

  lemma FollowsTable(book: PhotonBook, ticks: nat, slots: nat, ms: seq<Moment>, hs: seq<Happening>)
    requires Follows(book, ticks, slots, ms, hs)
    ensures book.Valid() && book.Indexed() && book.ladder.levels.Length == ticks && book.Slots() == slots
    ensures Stand(book.Content(), book.expiryQueue) == StandAfter(slots, ms)
    ensures book.index.inserts == RestedBy(slots, ms) && book.index.slots.Length == CapacityFor(slots)
  {
    hide Plays, Stream, StandAfter, RestedBy, After, LadderSteps.IndexOk, CapacityFor, HeapCovers;
  }

  // ---------- one moment more ----------

  lemma StoryNext(slots: nat, ticks: nat, ms: seq<Moment>, m: Moment)
    ensures var s := StandAfter(slots, ms);
      && StandAfter(slots, ms + [m]) == NextStand(slots, s, m)
      && RestedBy(slots, ms + [m]) == RestedBy(slots, ms) + (if m.Do? then NewlyRested(slots, s.book, m.c) else 0)
  {
    hide NextStand, NewlyRested, StandAfter;
    StoryGrows(slots, ticks, ms, m);
    assert AllButLast(ms + [m]) == ms && Last(ms + [m]) == m;
  }

  lemma StreamNext(slots: nat, hs: seq<Happening>, h: Happening)
    ensures Stream(slots, hs + [h]) == Stream(slots, hs) + EventsOf(slots, Replays.After(slots, hs), h)
    ensures Replays.After(slots, hs + [h]) == Next(slots, Replays.After(slots, hs), h)
  {
    hide EventsOf, Next;
    assert AllButLast(hs + [h]) == hs && Last(hs + [h]) == h;
  }

  lemma PlaysNext(slots: nat, ms: seq<Moment>, hs: seq<Happening>, m: Moment, h: Happening)
    requires Plays(slots, ms, hs)
    requires match m
             case Do(c) => h == Replays.Command(c)
             case Clock(now) => h.Expiry? && IdSet(h.gone) == DueIds(StandAfter(slots, ms).heap, now)
    ensures Plays(slots, ms + [m], hs + [h])
  {
    hide StandAfter, IdSet, DueIds;
    forall i | 0 <= i < |ms|
      ensures (ms + [m])[..i] == ms[..i] && (ms + [m])[i] == ms[i] && (hs + [h])[i] == hs[i]
    {
    }
    assert (ms + [m])[..|ms|] == ms;
  }

  /** One moment: the book goes on following the story. */
  method PlayMoment(book: PhotonBook, ghost ticks: nat, ghost slots: nat, ghost ms: seq<Moment>,
                    ghost hs: seq<Happening>, m: Moment)
    returns (ghost h: Happening)
    requires Follows(book, ticks, slots, ms, hs)
    requires m.Do? ==> Legal(ticks, StandAfter(slots, ms).book, m.c) && ProperIds(m.c)
    requires LooksInVain(StandAfter(slots, ms), m) ==> book.index.HasEmpty()
    modifies book.Repr()
    ensures Follows(book, ticks, slots, ms + [m], hs + [h])
  {
    hide PhotonBook.Valid, StandAfter, RestedBy, Plays, Stream, Replays.After, CapacityFor, Legal, ProperIds, Misses,
         AllHit, Step, EventsOf, HeapAfter, NewlyRested, KeepBook, DueIds, IdSet, ExpireAll, ExpireEvents,
         FlatMap.HasEmpty, ExpiresAsTold, ComesToRest;
    FollowsParts(book, ticks, slots, ms, hs);
    StoryNext(slots, ticks, ms, m);
    ghost var b, n := book.Content(), book.seqNo;
    match m
    case Do(c) =>
      StepRenumbered(Pooled(slots), b, c, n, 0);
      var _ := ApplyPhoton(book, c);
      h := Replays.Command(c);
      AfterCommand(slots, State(b, n), c);
      StreamNext(slots, hs, h);
      PlaysNext(slots, ms, hs, m, h);
      Counted(book);
    case Clock(now) =>
      ghost var gone := book.CheckExpiry(now);
      h := Expiry(gone);
      AfterExpiry(slots, State(b, n), gone);
      StreamNext(slots, hs, h);
      PlaysNext(slots, ms, hs, m, h);
      Counted(book);
  }

  lemma AfterCommand(slots: nat, s: State, c: Command)
    ensures BookAfter(slots, s, Replays.Command(c)) == Step(Pooled(slots), s, c).0.book
  {
  }

  lemma AfterExpiry(slots: nat, s: State, gone: seq<nat>)
    ensures BookAfter(slots, s, Expiry(gone)) == ExpireAll(s.book, gone)
    ensures EventsOf(slots, s, Expiry(gone)) == ExpireEvents(s.book, gone, s.seqNo)
  {
  }

  lemma Counted(book: PhotonBook)
    requires book.Valid()
    ensures |book.events| == book.seqNo
  {
    hide PhotonBook.Indexed, PhotonBook.Timed;
  }

  /**
   Plays a story on a new book. Afterwards the orders are those of the story, the stream is the one the theory of
   replaying speaks about, numbers and all, and every check of the clock has popped what was due. The play is cut
   short only where the source would not come back: at the lookup of an absent id in a table without an empty
   slot, which takes as many orders come to rest as the table has slots.
   */
  method Play(ticks: nat, slots: nat, ms: seq<Moment>)
    returns (book: PhotonBook, ghost hs: seq<Happening>, played: nat)
    requires ticks <= MAX_PRICE + 1 && slots <= Pools.NULL && LegalStory(slots, ticks, ms)
    requires forall i :: 0 <= i < |ms| && ms[i].Do? ==> ProperIds(ms[i].c)
    ensures played <= |ms| && Follows(book, ticks, slots, ms[..played], hs)
    ensures played < |ms| ==>
      && LooksInVain(StandAfter(slots, ms[..played]), ms[played]) && !book.index.HasEmpty()
      && RestedBy(slots, ms[..played]) >= CapacityFor(slots)
  {
    hide Follows, StandAfter, RestedBy, CapacityFor, LooksInVain, LegalStory, ProperIds, Legal, PhotonBook.Valid;
    book := new PhotonBook(ticks, slots);
    hs, played := [], 0;
    FollowsNothing(book, ticks, slots);
    assert ms[..0] == [];
    while played < |ms|
      invariant played <= |ms| && fresh(book.Repr()) && Follows(book, ticks, slots, ms[..played], hs)
    {
      NextMoment(slots, ticks, ms, played);
      FollowsParts(book, ticks, slots, ms[..played], hs);
      var stuck := Stuck(book, ms[played]);
      if stuck {
        return;
      }
      assert ms[..played + 1] == ms[..played] + [ms[played]];
      ghost var h := PlayMoment(book, ticks, slots, ms[..played], hs, ms[played]);
      hs := hs + [h];
      played := played + 1;
    }
  }

  lemma FollowsNothing(book: PhotonBook, ticks: nat, slots: nat)
    requires book.Valid() && book.ladder.levels.Length == ticks && book.Slots() == slots
    requires book.Content() == Book([], []) && book.seqNo == 0 && book.events == []
    requires book.expiryQueue == multiset{} && book.index.inserts == 0
    ensures Follows(book, ticks, slots, [], [])
  {
    hide PhotonBook.Valid;
  }

  lemma {:induction false} LegalBeginning(slots: nat, ticks: nat, ms: seq<Moment>, i: nat)
    requires i <= |ms| && LegalStory(slots, ticks, ms)
    ensures LegalStory(slots, ticks, ms[..i])
    decreases |ms|
  {
    if i < |ms| {
      assert AllButLast(ms)[..i] == ms[..i];
      LegalBeginning(slots, ticks, AllButLast(ms), i);
    } else {
      assert ms[..i] == ms;
    }
  }

  lemma NextMoment(slots: nat, ticks: nat, ms: seq<Moment>, i: nat)
    requires i < |ms| && LegalStory(slots, ticks, ms)
    ensures ms[i].Do? ==> Legal(ticks, StandAfter(slots, ms[..i]).book, ms[i].c)
  {
    hide Legal, StandAfter;
    LegalBeginning(slots, ticks, ms, i + 1);
    assert AllButLast(ms[..i + 1]) == ms[..i] && Last(ms[..i + 1]) == ms[i];
  }
}
