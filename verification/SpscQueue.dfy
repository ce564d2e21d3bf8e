/**
 The single-producer single-consumer ring buffer as two processes taking atomic steps in any order.
 An acquire load may return any value its index has had since the last one this process saw.
 */
module SpscQueues {
  import opened Types
  import opened Bits

  /** Where the producer is inside try_push. */
  datatype Producer<T> =
    | PushIdle
    | HasTail(item: T, at: nat)
    | Writing(item: T, at: nat, next: nat)
    | Publishing(item: T, next: nat)

  /** Where the consumer is inside try_pop. */
  datatype Consumer<T> =
    | PopIdle
    | HasHead(at: nat)
    | Reading(at: nat)
    | Releasing(item: T, at: nat)

  /**
   The shared indexes and buffer, each process's position and the last index value it has seen, and
   what has been pushed and popped so far. An index value is named by how many stores led to it.
   */
  datatype Queue<T> = Queue(head: nat, tail: nat, buffer: seq<T>, producer: Producer<T>, consumer: Consumer<T>,
                            seenHead: nat, seenTail: nat, pushed: seq<T>, popped: seq<T>)

  datatype Action<T> =
    | BeginPush(item: T)
    | LoadHead(h: nat)
    | WriteSlot
    | StoreTail
    | BeginPop
    | LoadTail(t: nat)
    | ReadSlot
    | StoreHead

  /** The masked successor of an index. */
  function Succ(i: nat, bits: nat): nat {
    And(i + 1, Pow2(bits) - 1)
  }

  function Init<T>(bits: nat, blank: T): Queue<T> {
    Queue(0, 0, seq(Pow2(bits), _ => blank), PushIdle, PopIdle, 0, 0, [], [])
  }

  /** One atomic step; None when the process is not at that point or the load is impossible. */
  function Step<T>(bits: nat, q: Queue<T>, a: Action<T>): Option<Queue<T>> {
    var cap := Pow2(bits);
    match a
    case BeginPush(item) =>
      if q.producer.PushIdle? then Some(q.(producer := HasTail(item, q.tail))) else None
    case LoadHead(h) =>
      if q.producer.HasTail? && q.seenHead <= h <= |q.popped| then
        var next := Succ(q.producer.at, bits);
        Some(q.(seenHead := h,
                producer := if next == h % cap then PushIdle else Writing(q.producer.item, q.producer.at, next)))
      else None
    case WriteSlot =>
      if q.producer.Writing? && q.producer.at < |q.buffer| then
        Some(q.(buffer := q.buffer[q.producer.at := q.producer.item],
                producer := Publishing(q.producer.item, q.producer.next)))
      else None
    case StoreTail =>
      if q.producer.Publishing? then
        Some(q.(tail := q.producer.next, pushed := q.pushed + [q.producer.item], producer := PushIdle))
      else None
    case BeginPop =>
      if q.consumer.PopIdle? then Some(q.(consumer := HasHead(q.head))) else None
    case LoadTail(t) =>
      if q.consumer.HasHead? && q.seenTail <= t <= |q.pushed| then
        Some(q.(seenTail := t,
                consumer := if q.consumer.at == t % cap then PopIdle else Reading(q.consumer.at)))
      else None
    case ReadSlot =>
      if q.consumer.Reading? && q.consumer.at < |q.buffer| then
        Some(q.(consumer := Releasing(q.buffer[q.consumer.at], q.consumer.at)))
      else None
    case StoreHead =>
      if q.consumer.Releasing? then
        Some(q.(head := Succ(q.consumer.at, bits), popped := q.popped + [q.consumer.item], consumer := PopIdle))
      else None
  }

  /** An interleaving: steps of both processes in any order, none of them impossible. */
  function Run<T>(bits: nat, blank: T, actions: seq<Action<T>>): Option<Queue<T>> {
    if actions == [] then Some(Init(bits, blank))
    else
      var before := Run(bits, blank, actions[..|actions| - 1]);
      if before.None? then None else Step(bits, before.value, actions[|actions| - 1])
  }

  // ---------- the invariant ----------

  /** How far apart the processes can be, whatever either of them has last seen. */
  ghost predicate Spaced<T>(cap: nat, q: Queue<T>) {
    && q.seenHead <= |q.popped| <= q.seenTail <= |q.pushed|
    && |q.pushed| - q.seenHead <= cap - 1
    && q.head < cap && q.tail < cap
  }

  /** The indexes are the store counts, wrapped. */
  ghost predicate Wrapped<T>(cap: nat, q: Queue<T>)
    requires cap > 0
  {
    q.head == |q.popped| % cap && q.tail == |q.pushed| % cap
  }

  /** The buffer holds what was pushed and not yet popped. */
  ghost predicate Filled<T>(cap: nat, q: Queue<T>)
    requires cap > 0
  {
    && |q.buffer| == cap
    && q.popped <= q.pushed
    && forall i: nat :: |q.popped| <= i < |q.pushed| ==> i % cap < cap && q.buffer[i % cap] == q.pushed[i]
  }

  ghost predicate ProducerOk<T>(cap: nat, q: Queue<T>)
    requires cap > 0 && |q.buffer| == cap
  {
    match q.producer
    case PushIdle => true
    case HasTail(_, at) => at == q.tail
    case Writing(_, at, next) =>
      at == q.tail && next == (|q.pushed| + 1) % cap && |q.pushed| + 1 - q.seenHead <= cap - 1
    case Publishing(item, next) =>
      && next == (|q.pushed| + 1) % cap && |q.pushed| + 1 - q.seenHead <= cap - 1
      && q.tail < cap && q.buffer[q.tail] == item
  }

  ghost predicate ConsumerOk<T>(cap: nat, q: Queue<T>) {
    match q.consumer
    case PopIdle => true
    case HasHead(at) => at == q.head
    case Reading(at) => at == q.head && |q.popped| < q.seenTail
    case Releasing(item, at) => at == q.head && |q.popped| < q.seenTail <= |q.pushed| && item == q.pushed[|q.popped|]
  }

  ghost predicate Inv<T>(bits: nat, q: Queue<T>) {
    var cap := Pow2(bits);
    Spaced(cap, q) && Wrapped(cap, q) && Filled(cap, q) && ProducerOk(cap, q) && ConsumerOk(cap, q)
  }

  // ---------- wrap-around arithmetic ----------

  lemma SuccMod(x: nat, bits: nat)
    ensures Succ(x % Pow2(bits), bits) == (x + 1) % Pow2(bits)
  {
    MaskedSuccessor(x % Pow2(bits), bits);
    NextMod(x, Pow2(bits));
  }

  lemma NextMod(x: nat, cap: nat)
    requires cap > 0
    ensures (x + 1) % cap == if x % cap + 1 == cap then 0 else x % cap + 1
  {
    var q, r := x / cap, x % cap;
    assert x == cap * q + r;
    if r + 1 == cap {
      ModUnique(x + 1, cap, q + 1, 0);
    } else {
      ModUnique(x + 1, cap, q, r + 1);
    }
  }

  /** Counts less than a lap apart share an index only if they are equal. */
  lemma SameIndex(a: nat, b: nat, cap: nat)
    requires cap > 0 && a <= b < a + cap
    ensures a % cap == b % cap <==> a == b
  {
    if a % cap == b % cap && a < b {
      var q, s := a / cap, b / cap;
      assert a == cap * q + a % cap && b == cap * s + b % cap;
      assert b - a == cap * (s - q);
      if s > q {
        MulAtLeast(cap, 1, s - q);
      } else {
        MulAtLeast(cap, s, q);
      }
      assert false;
    }
  }

  /** A full lap ahead is the same index. */
  lemma LapIndex(a: nat, cap: nat)
    requires cap > 0
    ensures (a + cap) % cap == a % cap
  {
    assert a == cap * (a / cap) + a % cap;
    assert a + cap == cap * (a / cap + 1) + a % cap;
    ModUnique(a + cap, cap, a / cap + 1, a % cap);
  }

  /** Against a head value less than a lap old, the full test is a test of the distance. */
  lemma FullTest(tail: nat, h: nat, cap: nat)
    requires cap > 0 && h <= tail <= h + cap - 1
    ensures (tail + 1) % cap == h % cap <==> tail - h == cap - 1
  {
    if tail - h == cap - 1 {
      LapIndex(h, cap);
    } else {
      SameIndex(h, tail + 1, cap);
    }
  }

  // ---------- every step keeps the invariant ----------

  lemma InitOk<T>(bits: nat, blank: T)
    requires bits > 0
    ensures Inv(bits, Init(bits, blank))
  {
    ModUnique(0, Pow2(bits), 0, 0);
  }

  lemma LoadHeadOk<T>(bits: nat, q: Queue<T>, h: nat)
    requires Inv(bits, q) && Step(bits, q, LoadHead(h)).Some?
    ensures Inv(bits, Step(bits, q, LoadHead(h)).value)
  {
    var cap := Pow2(bits);
    SuccMod(|q.pushed|, bits);
    FullTest(|q.pushed|, h, cap);
  }

  lemma WriteSlotOk<T>(bits: nat, q: Queue<T>)
    requires Inv(bits, q) && Step(bits, q, WriteSlot).Some?
    ensures Inv(bits, Step(bits, q, WriteSlot).value)
  {
    var cap := Pow2(bits);
    var w := Step(bits, q, WriteSlot).value;
    forall i: nat | |w.popped| <= i < |w.pushed|
      ensures i % cap < cap && w.buffer[i % cap] == w.pushed[i]
    {
      assert q.buffer[i % cap] == q.pushed[i];
      SameIndex(i, |q.pushed|, cap);
    }
  }

  lemma StoreTailOk<T>(bits: nat, q: Queue<T>)
    requires Inv(bits, q) && Step(bits, q, StoreTail).Some?
    ensures Inv(bits, Step(bits, q, StoreTail).value)
  {
    var cap := Pow2(bits);
    var w := Step(bits, q, StoreTail).value;
    forall i: nat | |w.popped| <= i < |w.pushed|
      ensures i % cap < cap && w.buffer[i % cap] == w.pushed[i]
    {
      if i < |q.pushed| {
        assert q.buffer[i % cap] == q.pushed[i];
      }
    }
  }

  lemma LoadTailOk<T>(bits: nat, q: Queue<T>, t: nat)
    requires Inv(bits, q) && Step(bits, q, LoadTail(t)).Some?
    ensures Inv(bits, Step(bits, q, LoadTail(t)).value)
  {
    SameIndex(|q.popped|, t, Pow2(bits));
  }

  lemma StoreHeadOk<T>(bits: nat, q: Queue<T>)
    requires Inv(bits, q) && Step(bits, q, StoreHead).Some?
    ensures Inv(bits, Step(bits, q, StoreHead).value)
  {
    SuccMod(|q.popped|, bits);
    var w := Step(bits, q, StoreHead).value;
    assert w.popped <= w.pushed;
  }

  /** The invariant survives every step of either process. */
  lemma StepOk<T>(bits: nat, q: Queue<T>, a: Action<T>)
    requires Inv(bits, q) && Step(bits, q, a).Some?
    ensures Inv(bits, Step(bits, q, a).value)
  {
    match a
    case BeginPush(_) =>
    case LoadHead(h) => LoadHeadOk(bits, q, h);
    case WriteSlot => WriteSlotOk(bits, q);
    case StoreTail => StoreTailOk(bits, q);
    case BeginPop =>
    case LoadTail(t) => LoadTailOk(bits, q, t);
    case ReadSlot => assert q.buffer[|q.popped| % Pow2(bits)] == q.pushed[|q.popped|];
    case StoreHead => StoreHeadOk(bits, q);
  }

  lemma {:induction false} RunOk<T>(bits: nat, blank: T, actions: seq<Action<T>>)
    requires bits > 0 && Run(bits, blank, actions).Some?
    ensures Inv(bits, Run(bits, blank, actions).value)
  {
    if actions == [] {
      InitOk(bits, blank);
    } else {
      RunOk(bits, blank, actions[..|actions| - 1]);
      StepOk(bits, Run(bits, blank, actions[..|actions| - 1]).value, actions[|actions| - 1]);
    }
  }

  // ---------- what every interleaving guarantees ----------

  /**
   In every interleaving, with loads as stale as they may be: what was popped is a prefix of what was
   pushed, at most capacity - 1 items are inside, and a slot being written is not being read.
   */
  lemma FifoSafety<T>(bits: nat, blank: T, actions: seq<Action<T>>)
    requires bits > 0 && Run(bits, blank, actions).Some?
    ensures var q := Run(bits, blank, actions).value;
      && q.popped <= q.pushed
      && 0 <= |q.pushed| - |q.popped| <= Pow2(bits) - 1
      && (q.producer.Writing? && q.consumer.Reading? ==> q.producer.at != q.consumer.at)
  {
    RunOk(bits, blank, actions);
    var q := Run(bits, blank, actions).value;
    SameIndex(|q.popped|, |q.pushed|, Pow2(bits));
  }

  // ---------- what callers hand in and get back ----------

  /** The item of the push in progress, and the items whose push reached its store, in order. */
  datatype Hand<T> = Hand(pending: Option<T>, stored: seq<T>)

  /** What was handed to try_push, read off the steps alone. */
  function HandedIn<T>(actions: seq<Action<T>>): Hand<T> {
    if actions == [] then Hand(None, [])
    else
      var h := HandedIn(actions[..|actions| - 1]);
      match actions[|actions| - 1]
      case BeginPush(item) => Hand(Some(item), h.stored)
      case StoreTail => if h.pending.Some? then Hand(None, h.stored + [h.pending.value]) else h
      case _ => h
  }

  /** What try_pop handed out, read off the slot each pop copied. */
  function HandedOut<T>(bits: nat, blank: T, actions: seq<Action<T>>): Hand<T> {
    if actions == [] then Hand(None, [])
    else
      var init := actions[..|actions| - 1];
      var h, q := HandedOut(bits, blank, init), Run(bits, blank, init);
      match actions[|actions| - 1]
      case ReadSlot => if q.Some? && q.value.head < |q.value.buffer| then Hand(Some(q.value.buffer[q.value.head]), h.stored) else h
      case StoreHead => if h.pending.Some? then Hand(None, h.stored + [h.pending.value]) else h
      case _ => h
  }

  /** The items of the two processes are the ones the callers see. */
  ghost predicate InHand<T>(bits: nat, blank: T, actions: seq<Action<T>>, q: Queue<T>) {
    && HandedIn(actions).stored == q.pushed
    && HandedOut(bits, blank, actions).stored == q.popped
    && (match q.producer
        case PushIdle => true
        case HasTail(item, _) => HandedIn(actions).pending == Some(item)
        case Writing(item, _, _) => HandedIn(actions).pending == Some(item)
        case Publishing(item, _) => HandedIn(actions).pending == Some(item))
    && (q.consumer.Releasing? ==> HandedOut(bits, blank, actions).pending == Some(q.consumer.item))
  }

  lemma {:induction false} StaysInHand<T>(bits: nat, blank: T, actions: seq<Action<T>>)
    requires bits > 0 && Run(bits, blank, actions).Some?
    ensures InHand(bits, blank, actions, Run(bits, blank, actions).value)
  {
    hide Inv, Succ, Pow2;
    if actions != [] {
      var init := actions[..|actions| - 1];
      StaysInHand(bits, blank, init);
      RunOk(bits, blank, init);
      ReadsOwnHead(bits, Run(bits, blank, init).value);
    }
  }

  lemma ReadsOwnHead<T>(bits: nat, q: Queue<T>)
    requires Inv(bits, q)
    ensures q.consumer.Reading? ==> q.consumer.at == q.head
  {
  }

  /**
   Whatever the interleaving, what try_pop has handed out is, item for item and in order, a prefix of what was
   handed to the calls of try_push that went through.
   */
  lemma PoppedIsHandedIn<T>(bits: nat, blank: T, actions: seq<Action<T>>)
    requires bits > 0 && Run(bits, blank, actions).Some?
    ensures HandedOut(bits, blank, actions).stored <= HandedIn(actions).stored
    ensures |HandedIn(actions).stored| - |HandedOut(bits, blank, actions).stored| <= Pow2(bits) - 1
  {
    hide Inv, Run, InHand;
    StaysInHand(bits, blank, actions);
    HandsAreQueue(bits, blank, actions);
    FifoSafety(bits, blank, actions);
  }

  lemma HandsAreQueue<T>(bits: nat, blank: T, actions: seq<Action<T>>)
    requires Run(bits, blank, actions).Some? && InHand(bits, blank, actions, Run(bits, blank, actions).value)
    ensures HandedIn(actions).stored == Run(bits, blank, actions).value.pushed
    ensures HandedOut(bits, blank, actions).stored == Run(bits, blank, actions).value.popped
  {
  }

  /** At every point of either process its next step can be taken, a load of any value still in its window. */
  lemma NeverStuck<T>(bits: nat, q: Queue<T>)
    requires Inv(bits, q)
    ensures match q.producer
            case PushIdle => forall item :: Step(bits, q, BeginPush(item)).Some?
            case HasTail(_, _) => forall h: nat :: Step(bits, q, LoadHead(h)).Some? <==> q.seenHead <= h <= |q.popped|
            case Writing(_, _, _) => Step(bits, q, WriteSlot).Some?
            case Publishing(_, _) => Step(bits, q, StoreTail).Some?
    ensures q.seenHead <= |q.popped|
    ensures match q.consumer
            case PopIdle => Step(bits, q, BeginPop).Some?
            case HasHead(_) => forall t: nat :: Step(bits, q, LoadTail(t)).Some? <==> q.seenTail <= t <= |q.pushed|
            case Reading(_) => Step(bits, q, ReadSlot).Some?
            case Releasing(_, _) => Step(bits, q, StoreHead).Some?
    ensures q.seenTail <= |q.pushed|
  {
  }

  /** What is inside, as a FIFO. */
  function Inside<T>(q: Queue<T>): seq<T>
    requires |q.popped| <= |q.pushed|
  {
    q.pushed[|q.popped|..]
  }

  /** The queue refines a FIFO: a push takes effect at its store, a pop at its own, no other step shows. */
  lemma RefinesFifo<T>(bits: nat, q: Queue<T>, a: Action<T>)
    requires Inv(bits, q) && Step(bits, q, a).Some?
    ensures var w := Step(bits, q, a).value;
      && |w.popped| <= |w.pushed|
      && match a
         case StoreTail => Inside(w) == Inside(q) + [q.producer.item]
         case StoreHead => Inside(q) == [q.consumer.item] + Inside(w)
         case _ => Inside(w) == Inside(q)
  {
    StepOk(bits, q, a);
  }

  /** A push is refused exactly when the head value it loaded leaves no free slot; the load decides. */
  lemma PushRefusedExactly<T>(bits: nat, q: Queue<T>, h: nat)
    requires Inv(bits, q) && Step(bits, q, LoadHead(h)).Some?
    ensures Step(bits, q, LoadHead(h)).value.producer.PushIdle? <==> |q.pushed| - h == Pow2(bits) - 1
  {
    SuccMod(|q.pushed|, bits);
    FullTest(|q.pushed|, h, Pow2(bits));
  }

  /** A pop is refused exactly when the tail value it loaded shows nothing new. */
  lemma PopRefusedExactly<T>(bits: nat, q: Queue<T>, t: nat)
    requires Inv(bits, q) && Step(bits, q, LoadTail(t)).Some?
    ensures Step(bits, q, LoadTail(t)).value.consumer.PopIdle? <==> t == |q.popped|
  {
    SameIndex(|q.popped|, t, Pow2(bits));
  }

  /** size_approx on current index values: the masked 64-bit difference is the true occupancy. */
  lemma SizeApproxExact<T>(bits: nat, q: Queue<T>)
    requires bits <= 64 && Inv(bits, q)
    ensures And((WORD + q.tail - q.head) % WORD, Pow2(bits) - 1) == |q.pushed| - |q.popped|
  {
    var cap, d := Pow2(bits), |q.pushed| - |q.popped|;
    Pow2Word();
    Pow2Add(bits, 64 - bits);
    MaskIsMod((WORD + q.tail - q.head) % WORD, bits);
    WrappedDifference(|q.popped|, d, cap, Pow2(64 - bits), q.head, q.tail);
  }

  lemma WrappedDifference(h: nat, d: nat, cap: nat, laps: nat, head: nat, tail: nat)
    requires cap > 0 && laps > 0 && cap * laps == WORD && d < cap
    requires head == h % cap && tail == (h + d) % cap
    ensures ((WORD + tail - head) % WORD) % cap == d
  {
    var q := h / cap;
    assert h == cap * q + head;
    if head + d < cap {
      ModUnique(h + d, cap, q, head + d);
      assert tail - head == d;
      MulAtLeast(cap, 1, laps);
      ModUnique(WORD + d, WORD, 1, d);
      ModUnique(d, cap, 0, d);
    } else {
      ModUnique(h + d, cap, q + 1, head + d - cap);
      assert tail - head == d - cap;
      MulAtLeast(cap, 1, laps);
      ModUnique(WORD + d - cap, WORD, 0, WORD + d - cap);
      assert WORD + d - cap == cap * (laps - 1) + d;
      ModUnique(WORD + d - cap, cap, laps - 1, d);
    }
  }
}
