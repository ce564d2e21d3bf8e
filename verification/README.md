# A verified model of the limit order book engine

This project models the matching engine and the structures around it, and proves them against one small
specification:

* `BookSpec` is that specification: each side of the book as one sequence in price-time priority, and submit,
  cancel and modify as functions on it. `Engine` says which of two pre-checks and which room for resting orders
  applies: `Reference` (the map-based book) or `Pooled(slots)` (the pool-backed ones). `SweepTheorems`,
  `BookInvariants`, `BookTheorems` and `Runs` prove what it is good for: price-time priority as an if-and-only-if,
  exact fill-or-kill, no crossed book, conservation, and exactly when the two engines stay together.
* `TradeRules` says what a submit, a cancel and a modify do once more, in the request's own prices, owners and sizes and
  not through the functions that define them; `EventRules` does the same for the events of the lifecycle stream.
* `Pools`, `Ticks`, `Links`, `LadderSteps` and `Ladders` are the intrusive ladder: one array of levels shared by
  both sides, doubly linked chains and the free list threaded through the same slots, and the cached best prices.
  `OrderBooks.OrderBook` adds the id index and the sweep on top. Every method is proved to do what the
  specification says.
* `PriceMaps` and `RefOrderBooks` are the reference book of maps and deques, proved against the same specification,
  and `CrossChecks` runs the two side by side.
* `Bits`, `FlatTables` and `FlatMaps` are the open-addressed table with tombstones; `PhotonSpec`, `Replays` and
  `Expiries` the lifecycle stream and the expiry heap; `Stories` whole histories of commands and clock checks, with
  the heap derived from what was submitted and when the clock was read. `PhotonBooks` is the hardened book itself,
  `PhotonRuns` plays stories on it, and `TwinChecks` runs it beside the plain book.
* `Corners` leads short runs from the empty book into every case in which a property fails.
* `SpscQueues` is the two-thread ring buffer as interleaved atomic steps.
* `BrowserSteps`, `BrowserMaps`, `BrowserTrees` and `BrowserRace` are the four book models of the report page.

`dafny verify dfyconfig.toml` checks everything.

## How the source is rendered

* `OrderBook` and `PhotonBook` share, line for line, their levels, pool, cached bests, tail linking, unlinking,
  repricing, size queries and fill-or-kill walk. These are modelled once, as `Ladders.Ladder`. `Order` carries the
  time-in-force and expiry that only `PhotonBook` reads.
* A pool slot is `Value(order)` or `NextFree(handle)`, the two members of the union. Handles are below
  `NULL` = 2^32-1; pools hold at most that many slots.
* Sizes, ids and sequence numbers are natural numbers, prices integers in the signed 64-bit range.
  `BookTheorems.SizesFit` says when 64-bit sums cannot overflow. The flat map's hash is computed with its 64-bit
  wrap-around, the ring's masks and its size difference likewise.
* The trade sink is the field `tape`, the update sink the field `events`. They record what the sink was handed.
* The expiry heap is a multiset of entries; which of several entries with the same time is popped first is left open.
* `NaiveBook` extends `TreeBook` and overrides three methods; it is `TreeBook` with the constant `naive` set.
* The ring buffer's steps are: load own index, load the other's index, touch the slot, store own index. An acquire
  load may return any value its index has had since the last one this process saw. The ghost sequences `pushed` and
  `popped` name index values by the number of stores that led to them.

What the methods ask of their caller, and no more: an order that can rest (a limit order) has an id that does not
rest yet and a price with `0 <= price < tick range`; for a modify this is asked only when the id rests
and the new size is not zero. `PhotonBook` and `FlatMap` keys are neither 0 nor 2^64-1, and a lookup of an absent key
needs an empty slot in the table, without which the loop in the source does not end (`FlatTables.ProbeEnds`); an
insert of an absent key needs room. The programs over whole runs, `TwinChecks.TwinCheck` and `PhotonRuns.Play`, ask
for no such slot: they stop at the lookup that would not come back. A zero-size fill-or-kill, a full pool, a reused id
and an insert behind a tombstone are modelled, not excluded.

## What the proofs found

* When the pool is full, `submit` drops the order but still reports it as resting (`BookTheorems.DropIsSilent`).
  `PhotonBook` emits a rejection and then an acknowledgement of the same order.
* A fill-or-kill of size zero is accepted by the reference book always and by the other books only when the best
  opposite price crosses (`SweepTheorems.FokPreChecksAgree`). These two corners are the only ones in which the
  engines differ (`Runs.LockstepExactly`).
* A modify that resubmits takes the order out without an event, so a listener's copy keeps an order too many
  (`Replays.ResubmitLosesStep`). The stream rebuilds the book exactly on the histories without such a modify and
  without a dropped order (`Replays.RebuildsExactly`).
* `FlatMap::insert` stops at the first tombstone. When the key is stored behind it the table holds the key twice
  (`FlatTables.InsertExactly`, `FlatMaps.FlatMap.Insert`). The books only insert absent keys.
* `check_expiry` removes an order that is not due when its id was used before by an order whose heap entry is still
  there. `Stories.ExpiryExactly` gives the exact condition on the history.
* `Corners` has a run into each of these: `FullPool`, `ZeroFillOrKill`, `MovedBid`, `KeyTwice` and `ReusedId`.
* A comment in `include/lob/photon_book.hpp:213-216` speaks of GTD and DAY orders; the code schedules only GTD orders
  with a non-zero expiry, and the model follows the code.

## Model

| member | source | states |
|---|---|---|
| `Runs.LockstepExactly` | tests/fuzz_cross_check.cpp:159-198 | The pool-backed book and the reference book are in the same state and have given the same results and trades (numbers included) after every prefix of a legal run if and only if the run never submits a zero-size FOK whose price does not cross and never needs to rest an order in a full pool |
| `CrossChecks.CrossCheck` | tests/fuzz_cross_check.cpp:159-198 | The cross-check as a program over both real data structures: it compares replies, trades, best prices, order count and all sizes after every command, and reports success on exactly the runs of `LockstepExactly` |
| `CrossChecks.ApplyFast` | include/lob/order_book.hpp:101-111 | One command on the fast book gives the specification's next state, reply and trades |
| `CrossChecks.ApplyRef` | include/lob/ref_order_book.hpp:52-127 | One command on the reference book gives the specification's next state, reply and trades |
| `CrossChecks.SameObservables` | tests/fuzz_cross_check.cpp:177-197 | The comparison of queries succeeds if and only if best prices, order counts and all sizes agree |
| `CrossChecks.DropShows` | src/core/order_book.cpp:207-214 | If the order counts and replies of both books agree after a command, the command stayed clear of both corners: the count betrays a dropped order at once |
| `Runs.StepAgrees` | src/core/order_book.cpp:15-162 | From equal good states one legal command gives equal states and replies if and only if it avoids the two corners |
| `BookTheorems.SubmitAgrees` | src/core/order_book.cpp:15-54 | Submit on the pool-backed book equals submit on the reference book if and only if it is neither a non-crossing zero-size FOK nor an order that must rest in a full pool |
| `BookTheorems.ModifyAgrees` | src/core/order_book.cpp:126-162 | Modify agrees with the reference always: the slot it frees is there for its own resubmission |
| `BookTheorems.DropsExactly` | src/core/order_book.cpp:207-214 | A limit order is dropped for lack of a slot if and only if the pool was full before the submit, nothing crosses and the size is not zero: a sweep that leaves a remainder to rest has freed a slot |
| `BookTheorems.DropIsSilent` | src/core/order_book.cpp:49-50 | A dropped order changes nothing in the book, yet the result still reports its size as resting, field for field what the reference reports |
| `Corners.FullPool` | src/core/order_book.cpp:207-214 | A run into the first corner: two bids and one slot, and the books have parted |
| `Corners.ZeroFillOrKill` | src/core/order_book.cpp:20-23 | A run into the second corner: a fill-or-kill of size zero on the empty book |
| `Corners.MovedBid` | include/lob/photon_book.hpp:204-210 | A run whose stream does not rebuild the book: a bid, then its modify to another price |
| `Corners.ReusedId` | include/lob/photon_book.hpp:217-232 | A run after which a check removes an order that never expires: submit 7 GTD at 100, cancel 7, submit 7 GTC, check at 100 |
| `Corners.KeyTwice` | include/lob/flat_map.hpp:68-84 | Insert 1 and 22, which share a home, erase 1, insert 22 again: 22 is stored twice |
| `SweepTheorems.PriceTimePriority` | src/core/order_book.cpp:61-116 | A result is the sweep's if and only if its trades are the fills, in queue order and at the resting price with consecutive numbers, of a prefix of the opposite side, each but the last consuming its order, stopped only by limit price, own order or exhausted size |
| `SweepTheorems.SweepFills` | src/core/order_book.cpp:61-116 | A sweep fills the smaller of the asked size and the liquidity in reach, and that is the sum of its trades |
| `SweepTheorems.FokExact` | src/core/order_book.cpp:167-204 | For a positive size either engine's pre-check succeeds if and only if the sweep with the same arguments leaves nothing |
| `SweepTheorems.FokPreChecksAgree` | include/lob/ref_order_book.hpp:184-201 | The two engines' pre-checks agree if and only if the size is positive or the top of book crosses |
| `SweepTheorems.SweepConserves` | src/core/order_book.cpp:100-104 | What leaves the queue is what was traded, and traded plus remaining is the asked size |
| `SweepTheorems.SweepKeeps` | src/core/order_book.cpp:100-112 | What a sweep leaves is a suffix of the queue whose first order may be smaller; nothing else changes, no empty order stays |
| `SweepTheorems.SweepStops` | src/core/order_book.cpp:66-81 | A sweep that leaves a remainder before a non-empty queue stopped at an order it may not trade with |
| `SweepTheorems.SweepSameLimit` | src/core/order_book.cpp:28-31 | The market order's worst-case limit inside the tick range sweeps like an unlimited one |
| `BookTheorems.FillOrKill` | src/core/order_book.cpp:20-23 | A positive FOK fills completely when the liquidity in reach suffices and otherwise changes nothing and trades nothing |
| `BookTheorems.SubmitReports` | src/core/order_book.cpp:33-53 | The five result fields of every other submit in closed form: filled is the reachable liquidity capped by the size, the rest rests only for a limit order with no own order in the way |
| `TradeRules.SubmitReplies` | src/core/order_book.cpp:15-54 | The reply to every submit, in prices, owners and sizes: with the longest prefix of the opposite side priced within the request (all of it for a market order) and of no order of its own non-zero owner, filled is the smaller of the size and what the prefix holds; only a limit order rests the remainder, unless it stopped at its own owner in range; a fill-or-kill is turned away when the prefix holds too little, or at a pooled book when the best price is out of range |
| `TradeRules.SubmitTrades` | src/core/order_book.cpp:61-116 | The trades of every submit, field by field, and the opposite side they leave: the first orders of that prefix, each at its own price, all but the last in full, numbered on |
| `TradeRules.SubmitRests` | src/core/order_book.cpp:207-247 | The taker's own side after every submit: the very order that was submitted, with the size the reply says, behind all its equals and betters; or nothing new |
| `TradeRules.NoTradeBeyondPrice` | src/core/order_book.cpp:28-31 | No trade of a limit, IOC or FOK buy is above its price, none of a sell below |
| `TradeRules.NoSelfTrade` | src/core/order_book.cpp:79-81 | No trade of a request with a non-zero owner names a resting order of that owner |
| `TradeRules.DiscardedExactlyOnSelfTrade` | src/core/order_book.cpp:40-52 | Part of a limit order is thrown away if and only if an order of the same non-zero owner stands within its price, only tradable orders before it, and those hold less than it asks for |
| `TradeRules.RestsAsAsked` | src/core/order_book.cpp:207-247 | An order that rests after its submit has the id, side, price, owner and time in force asked for, and the size less its fills |
| `TradeRules.CancelTakesOne` | src/core/order_book.cpp:118-124 | Cancel takes the order with the id out of its place and leaves every other where it was |
| `TradeRules.ModifyPlainly` | src/core/order_book.cpp:126-162 | Every modify of a resting order, branch by branch with book, reply and trades: out at size zero; resized in place at its price and no larger size, the new size reported as resting; otherwise taken out and submitted as a limit order of the new price and the new size, for its owner |
| `TradeRules.ModifyOfNone` | src/core/order_book.cpp:126-128 | Modifying an id that does not rest changes nothing and answers the empty result |
| `TradeRules.ModifiedRestsAsAsked` | src/core/order_book.cpp:154-161 | If the modified order rests afterwards it has the price asked for and the size asked for less its fills, everything else as before |
| `BookTheorems.MarketCrossesAll` | README.md:117-121 | A market order crosses every resting order |
| `BookTheorems.TopIsBest` | include/lob/order_book.hpp:113-124 | The reported best price is the highest bid or the lowest ask, and -1 on an empty side |
| `BookInvariants.SubmitGood` | src/core/order_book.cpp:40-52 | Submit keeps the book sorted, uncrossed, free of duplicate ids and of empty orders |
| `BookInvariants.CancelGood` | src/core/order_book.cpp:118-124 | Cancel keeps the book good, removes the id and exactly one order |
| `BookInvariants.ModifyGood` | src/core/order_book.cpp:126-162 | Modify keeps the book good |
| `BookInvariants.RestGood` | src/core/order_book.cpp:44-52 | Resting behind the cross check cannot cross the book |
| `Runs.ReachableGood` | src/core/order_book.cpp:44-52 | Every book reachable by a legal run is sorted, uncrossed, without duplicates or empty orders |
| `Runs.ReachablePlainly` | src/core/order_book.cpp:44-52 | The same order by order: every bid strictly below every ask, each side from best to worst, no id twice, no empty order |
| `Runs.RunNumbered` | src/core/order_book.cpp:88-98 | The trades of every run carry the numbers 0, 1, 2, ... |
| `Runs.ReachableFits` | include/lob/pool.hpp:71-83 | No run ever holds more orders than the pool has slots |
| `BookTheorems.SubmitCount` | include/lob/pool.hpp:71-83 | A submit never takes the book over the pool's capacity |
| `BookTheorems.ModifyCount` | src/core/order_book.cpp:154-161 | Nor does a modify |
| `BookTheorems.SizesFit` | include/lob/order_book.hpp:80-85 | While a side's total stays under 2^64 no level size and no FOK count overflows 64 bits |
| `Runs.RunBalances` | src/core/order_book.cpp:100-104 | Over every legal run submitted sizes equal twice the traded ones plus what rests, was withdrawn or discarded, and was dropped; nothing is dropped by the reference |
| `BookTheorems.SubmitConserves` | src/core/order_book.cpp:35-51 | Filled is the sum of the trades, filled plus resting never exceeds the size, and the book's total changes by resting minus filled unless the order was dropped |
| `BookTheorems.CancelConserves` | src/core/order_book.cpp:118-124 | Cancel takes exactly the order's remaining size out of the book |
| `BookTheorems.ResizeConserves` | src/core/order_book.cpp:143-152 | An in-place resize changes the total by exactly the difference |
| `BookTheorems.ShrinkKeepsPlace` | README.md:123-125 | A same-price modify that does not grow changes that order's size and nothing else, every order at its old index |
| `BookTheorems.ResubmitKeepsOthers` | src/core/order_book.cpp:154-161 | Any other modify leaves the own side's other orders untouched, trims the opposite side as a sweep does, and puts the order behind all of its price |
| `BookTheorems.SubmitKeepsOthers` | src/core/order_book.cpp:207-247 | A limit submit leaves its own side's orders untouched and stands last among its price |
| `BookTheorems.RestedIsLast` | src/core/order_book.cpp:225-240 | A rested order stands behind every order at its price or better and before every worse one |
| `Pools.Pool.constructor` | include/lob/pool.hpp:58-69 | A new pool is all free, handed out from slot 0 upwards |
| `Pools.Pool.Allocate` | include/lob/pool.hpp:71-83 | Takes the front of the free list; null if and only if every slot is in use, and then nothing changes |
| `Pools.Pool.Deallocate` | include/lob/pool.hpp:85-100 | Puts the slot at the front (LIFO) or the back (FIFO) of the free list and changes no other live slot |
| `Pools.Pool.Put` | include/lob/pool.hpp:109-119 | Writes one live slot and leaves the free list alone |
| `Pools.PushFront` | include/lob/pool.hpp:94-98 | A freed slot that points at the old head is the chain with it in front |
| `Pools.PushBack` | include/lob/pool.hpp:86-93 | A freed slot linked from the old tail is the chain with it at the back |
| `LadderSteps.SlotsPartitioned` | include/lob/pool.hpp:71-100 | Every slot is either free or in exactly one chain at exactly one place |
| `LadderSteps.IndexTellsLive` | src/core/order_book.cpp:118-119 | An id is indexed if and only if it rests, and its handle names its own slot |
| `LadderSteps.AppendStep` | src/core/order_book.cpp:216-240 | Linking a slot at a level's tail rests the order in the abstract book and keeps the whole representation in order |
| `LadderSteps.UnlinkStep` | src/core/order_book.cpp:272-287 | Splicing a slot out and freeing it cancels exactly that order and keeps the representation in order |
| `LadderSteps.ResizeStep` | src/core/order_book.cpp:143-147 | Changing one slot's size and its level's total resizes exactly that order |
| `LadderSteps.ScanFindsBest` | src/core/order_book.cpp:253-266 | The inward scan that never looks at sides lands on the true new best of the emptied side |
| `LadderSteps.BestStands` | src/core/order_book.cpp:288-292 | Only emptying the best level of its own side can change a best price |
| `LadderSteps.CountStep` | src/core/order_book.cpp:167-204 | The tick walk of the FOK pre-check counts one level at a time exactly what the queue has in reach |
| `Links.OneLevelChanges` | src/core/order_book.cpp:207-293 | Changing one level's chain leaves every other level's chain intact in the shared slots |
| `Links.AppendLevel` | src/core/order_book.cpp:226-237 | Linking at the tail gives a doubly linked list of the old chain and the new slot with the right total |
| `Links.UnlinkLevel` | src/core/order_book.cpp:272-287 | Bridging the neighbours gives a doubly linked list without the slot with the right total |
| `Links.ResizeLevel` | src/core/order_book.cpp:143-147 | A resized slot leaves links alone and the level total right |
| `Ticks.AppendRests` | src/core/order_book.cpp:225-240 | Appending to a tick's queue is resting in price-time order, and that tick holds no order of the other side |
| `Ticks.RemoveCancels` | src/core/order_book.cpp:272-287 | Removing from a tick's queue is cancelling in the price-time order |
| `Ticks.UpdateResizes` | src/core/order_book.cpp:143-147 | Resizing in a tick's queue is resizing in the price-time order |
| `Ticks.BestTick` | include/lob/order_book.hpp:157-169 | The best price is the first tick, in the side's direction, that holds an order of that side, and -1 without one |
| `Ticks.SizeAtTick` | include/lob/order_book.hpp:116-124 | The size shown at a tick is the total of its queue when the queue is of that side and 0 otherwise |
| `Ticks.SameSideBeyond` | src/core/order_book.cpp:241-266 | In an uncrossed book every tick behind the best of a side holds only that side |
| `Ladders.Ladder.constructor` | include/lob/order_book.hpp:157-167 | An empty ladder over the given pool policy and tick range |
| `Ladders.Ladder.Append` | src/core/order_book.cpp:207-247 | Null and no change if and only if the pool is full; otherwise the order rests, linked last at its tick, and the cached best follows |
| `Ladders.Ladder.LinkTail` | src/core/order_book.cpp:216-238 | The link writes at a level's tail, with or without a previous tail |
| `Ladders.Ladder.UnlinkAndFree` | src/core/order_book.cpp:272-293 | Removes exactly the order in the slot, frees the slot, and both cached bests are the true ones again |
| `Ladders.Ladder.Detach` | src/core/order_book.cpp:272-287 | The same before repricing: levels, chains and slots are already those of the cancelled book |
| `Ladders.Ladder.SpliceOut` | src/core/order_book.cpp:272-285 | The pointer writes at head, tail and middle give exactly the unlinked slots and level |
| `Ladders.Ladder.RefreshBest` | src/core/order_book.cpp:288-292 | Repricing only when the emptied level was the best restores both cached bests |
| `Ladders.Ladder.RepriceBestBid` | src/core/order_book.cpp:253-258 | The downward scan stops at the first non-empty tick below, or -1 |
| `Ladders.Ladder.RepriceBestAsk` | src/core/order_book.cpp:260-266 | The upward scan stops at the first non-empty tick above, or -1 past the range |
| `Ladders.Ladder.SetRemaining` | src/core/order_book.cpp:143-147 | Lowers one order's size and its level's total together |
| `Ladders.Ladder.Top` | src/core/order_book.cpp:66-75 | The head of the best level is the first order in price-time priority |
| `Ladders.Ladder.SizeOn` | include/lob/order_book.hpp:113-124 | The head's side decides which side a level's total counts for |
| `Ladders.Ladder.CountLevel` | src/core/order_book.cpp:167-190 | One level of the pre-check, by total for owner 0 and by FIFO walk otherwise, with the stop flag exact |
| `Ladders.Ladder.WalkLevel` | src/core/order_book.cpp:172-188 | The FIFO walk counts up to the first order of the same owner |
| `Ladders.Ladder.CanFill` | src/core/order_book.cpp:167-204 | True if and only if the top crosses and the liquidity in reach is at least the size |
| `OrderBooks.OrderBook.constructor` | src/core/order_book.cpp:10-13 | An empty valid book |
| `OrderBooks.OrderBook.Submit` | src/core/order_book.cpp:15-54 | Book, result, trades and trade numbers are the specification's; all invariants kept |
| `OrderBooks.OrderBook.Match` | src/core/order_book.cpp:61-116 | The loop leaves the sweep's queue, remainder, trades and numbers |
| `OrderBooks.OrderBook.Fill` | src/core/order_book.cpp:100-112 | One bite at the best order: shrink it, or unlink and forget it when used up |
| `OrderBooks.OrderBook.RestOrder` | src/core/order_book.cpp:207-247 | Rests the order, or changes nothing when the pool is full |
| `OrderBooks.OrderBook.Cancel` | src/core/order_book.cpp:118-124 | True if and only if the id rests; removes exactly that order |
| `OrderBooks.OrderBook.Drop` | src/core/order_book.cpp:272-293 | Unlinking and erasing the index entry removes exactly that order |
| `OrderBooks.OrderBook.Modify` | src/core/order_book.cpp:126-162 | Unknown id, zero size, in-place shrink and resubmission, each as specified |
| `OrderBooks.OrderBook.BestBid` | include/lob/order_book.hpp:113-113 | The cached best bid is the highest bid or -1 |
| `OrderBooks.OrderBook.BestAsk` | include/lob/order_book.hpp:114-114 | The cached best ask is the lowest ask or -1 |
| `OrderBooks.OrderBook.BidSizeAt` | include/lob/order_book.hpp:116-119 | The size bid at a tick |
| `OrderBooks.OrderBook.AskSizeAt` | include/lob/order_book.hpp:120-124 | The size offered at a tick |
| `OrderBooks.OrderBook.OpenOrders` | include/lob/order_book.hpp:129-129 | The pool's use count is the number of resting orders |
| `RefOrderBooks.RefOrderBook.Submit` | include/lob/ref_order_book.hpp:52-80 | Book, result, trades and numbers are the specification's with unlimited room |
| `RefOrderBooks.RefOrderBook.DoMatch` | include/lob/ref_order_book.hpp:147-182 | The loop over the best key leaves the sweep's queue, remainder, trades and numbers |
| `RefOrderBooks.RefOrderBook.Fill` | include/lob/ref_order_book.hpp:170-179 | One bite at the front of the best deque, erasing order, level and index entry as needed |
| `RefOrderBooks.RefOrderBook.CanFill` | include/lob/ref_order_book.hpp:184-201 | True if and only if the liquidity in reach is at least the size, with no look at the top |
| `RefOrderBooks.RefOrderBook.ScanLevel` | include/lob/ref_order_book.hpp:205-212 | One deque of the pre-check, with the stop flag exact |
| `RefOrderBooks.RefOrderBook.RestOrder` | include/lob/ref_order_book.hpp:141-145 | Pushing at the back of a price's deque rests the order in price-time order |
| `RefOrderBooks.RefOrderBook.Cancel` | include/lob/ref_order_book.hpp:82-94 | True if and only if the id rests; removes exactly that order |
| `RefOrderBooks.RefOrderBook.Modify` | include/lob/ref_order_book.hpp:96-127 | The four branches of modify, as specified |
| `RefOrderBooks.RefOrderBook.BestBid` | include/lob/ref_order_book.hpp:42-44 | The last key of the bid map, or -1 |
| `RefOrderBooks.RefOrderBook.BestAsk` | include/lob/ref_order_book.hpp:45-47 | The first key of the ask map, or -1 |
| `RefOrderBooks.RefOrderBook.SizeOn` | include/lob/ref_order_book.hpp:133-139 | The sum over one deque is the size at that price |
| `RefOrderBooks.RefOrderBook.OpenOrders` | include/lob/ref_order_book.hpp:50-50 | The index has one entry per resting order |
| `PriceMaps.LineStart` | include/lob/ref_order_book.hpp:42-47 | The best key's deque is the front of the side's price-time order |
| `PriceMaps.PushRests` | include/lob/ref_order_book.hpp:141-145 | A push into the map of deques is an insertion in price-time order |
| `PriceMaps.EraseAt` | include/lob/ref_order_book.hpp:82-94 | An erase from a deque, dropping an empty level, removes exactly that order from the price-time order |
| `PriceMaps.UpdateAt` | include/lob/ref_order_book.hpp:112-117 | A resize inside a deque is a resize at one place of the price-time order |
| `PriceMaps.LineSize` | include/lob/ref_order_book.hpp:133-139 | A deque's total is the side's size at its price |
| `Bits.MaskIsMod` | include/lob/flat_map.hpp:44-52 | Masking with a power of two minus one is the remainder |
| `Bits.MaskedSuccessor` | include/lob/spsc_queue.hpp:34-34 | The masked successor of an index wraps exactly at the end |
| `FlatTables.IndexBelow` | include/lob/flat_map.hpp:110-113 | The multiplicative hash shifted by 64 minus log2(capacity) is below the capacity for every key, wrap-around included |
| `FlatTables.TopBits` | include/lob/flat_map.hpp:108-113 | The home index is the top bits of the 64-bit product with 11400714819323198485; exactly 0 and 2^64-1 are no keys |
| `FlatTables.CapacityIsLeast` | include/lob/flat_map.hpp:44-47 | The capacity is the least power of two with 16 slots and twice the expected count |
| `FlatTables.ProbeEnds` | include/lob/flat_map.hpp:54-62 | A probe passes every slot without stopping if and only if neither the key nor an empty slot is in the table |
| `FlatTables.StoppedAtEmpty` | include/lob/flat_map.hpp:54-62 | Meeting an empty slot proves the key absent: no tombstone hides a key |
| `FlatTables.InsertAbsent` | include/lob/flat_map.hpp:68-78 | Filling the first free slot or tombstone with an absent key adds it and keeps every key reachable and unique |
| `FlatTables.OverwriteStored` | include/lob/flat_map.hpp:78-81 | Overwriting a stored key in place changes its value only |
| `FlatTables.BuryStored` | include/lob/flat_map.hpp:86-94 | A tombstone removes exactly that key and hides no other |
| `FlatTables.InsertExactly` | include/lob/flat_map.hpp:68-84 | Where insert stops, writing keeps the table a map if and only if the key was absent or it stopped at the key itself; a tombstone in front of a stored key makes insert store it twice |
| `FlatTables.RoomLeft` | include/lob/flat_map.hpp:68-84 | With fewer keys than slots an insert meets a slot it can use |
| `FlatMaps.FlatMap.constructor` | include/lob/flat_map.hpp:44-52 | An empty table of capacity 16, doubled until it holds twice the expected count |
| `FlatMaps.FlatMap.Capacity` | include/lob/flat_map.hpp:45-47 | The doubling loop ends there, at a power of two |
| `FlatMaps.FlatMap.ShiftFor` | include/lob/flat_map.hpp:49-51 | The halving loop leaves 64 minus log2(capacity) |
| `FlatMaps.FlatMap.Probe` | include/lob/flat_map.hpp:54-62 | The loop terminates for a stored key or while an empty slot is left, at the key or at proof of its absence |
| `FlatMaps.FlatMap.Find` | include/lob/flat_map.hpp:54-62 | Agrees with a mathematical map |
| `FlatMaps.FlatMap.Erase` | include/lob/flat_map.hpp:86-94 | Agrees with map removal, keeps the count exact and never uses up or recreates an empty slot |
| `FlatMaps.FlatMap.ProbeInsert` | include/lob/flat_map.hpp:68-84 | The insert loop terminates while fewer keys than slots are stored |
| `FlatMaps.FlatMap.Insert` | include/lob/flat_map.hpp:68-84 | Agrees with map update unless a tombstone stands in front of the stored key; then the key is in the table twice and the count one too high |
| `FlatMaps.FlatMap.Size` | include/lob/flat_map.hpp:101-101 | The count is exact |
| `FlatMaps.FlatMap.BudgetLeavesEmpty` | include/lob/flat_map.hpp:44-52 | Fewer inserts of new keys than the capacity leave an empty slot, whatever was erased in between |
| `TwinChecks.TwinCheck` | include/lob/photon_book.hpp:125-211 | The hardened book side by side with the plain one, over every legal run: same results, trades up to their numbers, best prices, count and sizes after every command, and what it answered is what the specification answers. The run is cut short only where a probe would not end, at the lookup of an absent id in a table without an empty slot, and not before as many orders have come to rest as the table has slots |
| `TwinChecks.TwinsStuck` | include/lob/photon_book.hpp:164-178 | Whether the next command is such a lookup, decided exactly |
| `TwinChecks.TwinStep` | include/lob/photon_book.hpp:125-211 | One command keeps both books at the same orders and gives the same answer; the table sees one insert for each order that comes to rest and no other |
| `PhotonRuns.ApplyPhoton` | include/lob/photon_book.hpp:71-85 | One command through the callback sink: the specification's next state, reply and trades, and exactly the events, heap entries and table inserts of the command |
| `PhotonRuns.PlayMoment` | include/lob/photon_book.hpp:125-232 | One command or clock check more: orders, heap, stream and numbers stay those of the story |
| `PhotonRuns.Play` | include/lob/photon_book.hpp:125-232 | The book through any legal story of commands and clock checks: its orders and heap are the story's, its events are the stream of `Replays.RebuildsExactly` number for number. It is cut short only at a lookup of an absent id in a table without an empty slot |
| `PhotonRuns.Stuck` | include/lob/flat_map.hpp:54-62 | Whether a command or clock check is about to start a probe that would not end |
| `TwinChecks.SameDepth` | include/lob/photon_book.hpp:234-251 | The comparison of queries succeeds if and only if best prices, counts and all sizes agree |
| `Renumbering.SweepRenumbered` | include/lob/photon_book.hpp:286-324 | The start of the numbering has no influence on what trades |
| `Renumbering.StepRenumbered` | include/lob/photon_book.hpp:272-284 | Nor on any state or reply |
| `PhotonBooks.PhotonBook.constructor` | include/lob/photon_book.hpp:118-122 | An empty valid book |
| `PhotonBooks.PhotonBook.Submit` | include/lob/photon_book.hpp:125-162 | Book and result as specified, events exactly those of the lifecycle, heap grown by exactly the GTD order that rested |
| `PhotonBooks.PhotonBook.Match` | include/lob/photon_book.hpp:286-324 | The sweep's queue and remainder, one fill event per trade with its running leaves size |
| `PhotonBooks.PhotonBook.ApplyTrade` | include/lob/photon_book.hpp:305-321 | One trade: event, shrink or removal from ladder and table |
| `PhotonBooks.PhotonBook.RestOrder` | include/lob/photon_book.hpp:363-404 | Rests, indexes and schedules the order; in a full pool emits a rejection and changes nothing else |
| `PhotonBooks.PhotonBook.RestRemainder` | include/lob/photon_book.hpp:151-160 | Rests unless the book still crosses; a dropped order is followed by an acknowledgement all the same |
| `PhotonBooks.PhotonBook.Locate` | include/lob/photon_book.hpp:164-167 | The table finds a live order's slot, and nothing for an absent id |
| `PhotonBooks.PhotonBook.Cancel` | include/lob/photon_book.hpp:164-173 | Removes exactly that order and emits one cancel event, or returns false |
| `PhotonBooks.PhotonBook.Remove` | include/lob/photon_book.hpp:170-171 | Unlink and erase from the table together |
| `PhotonBooks.PhotonBook.Modify` | include/lob/photon_book.hpp:175-211 | The four branches, with their events and the heap entry of a resubmitted GTD order |
| `PhotonBooks.PhotonBook.Shrink` | include/lob/photon_book.hpp:192-196 | The in-place resize keeps everything else |
| `PhotonBooks.PhotonBook.CheckExpiry` | include/lob/photon_book.hpp:217-232 | Pops exactly the due entries, removes exactly the resting orders they name, everything else in place, one event each. For every legal story that led here the orders removed are exactly the GTD orders with 0 < expiry <= now if and only if no earlier use of an id haunts the story, so always when no limit id was submitted twice. An empty slot is needed only when a due entry's order is gone |
| `PhotonBooks.PhotonBook.ExpireTop` | include/lob/photon_book.hpp:220-230 | One popped entry cancels the order it names if that still rests |
| `PhotonBooks.PhotonBook.Expire` | include/lob/photon_book.hpp:224-230 | Looks the id up, reports the expiry and takes the order out, or does nothing |
| `PhotonBooks.PhotonBook.Earliest` | include/lob/photon_book.hpp:218-222 | The top of the heap is an entry with the least time |
| `PhotonBooks.PhotonBook.BestBid` | include/lob/photon_book.hpp:234-234 | The highest bid or -1 |
| `PhotonBooks.PhotonBook.BestAsk` | include/lob/photon_book.hpp:235-235 | The lowest ask or -1 |
| `PhotonBooks.PhotonBook.BidSizeAt` | include/lob/photon_book.hpp:237-241 | The size bid at a tick |
| `PhotonBooks.PhotonBook.AskSizeAt` | include/lob/photon_book.hpp:242-246 | The size offered at a tick |
| `PhotonBooks.PhotonBook.OpenOrders` | include/lob/photon_book.hpp:251-251 | The number of resting orders |
| `PhotonSpec.SubmitNumbered` | include/lob/photon_book.hpp:272-284 | A submit's events are numbered without gap |
| `PhotonSpec.ModifyNumbered` | include/lob/photon_book.hpp:272-284 | A modify's events are numbered without gap |
| `PhotonSpec.SubmitTrades` | include/lob/photon_book.hpp:71-85 | The trades the callback sink derives from a submit's events are the trades of the matching engine |
| `Replays.SweepReplays` | include/lob/photon_book.hpp:286-324 | Replaying a sweep's fill events turns a copy of the queue into the swept queue |
| `Replays.SubmitInStep` | include/lob/photon_book.hpp:125-162 | Replaying a submit's events keeps a copy in step if and only if the order was not dropped |
| `Replays.ResubmitLosesStep` | include/lob/photon_book.hpp:204-210 | A resubmitting modify announces nothing about the order it takes out: the copy is left with exactly one order too many |
| `Replays.StepInStep` | include/lob/photon_book.hpp:125-232 | Any command or expiry keeps a replayed copy in step if and only if it is not a dropped order or a resubmitting modify |
| `Replays.StreamNumbered` | include/lob/photon_book.hpp:272-284 | Over every legal history the stream's numbers run from 0 without gap |
| `EventRules.EveryReportIsTrue` | include/lob/photon_book.hpp:164-232 | Over every legal history each event belongs to one step: it is Canceled if and only if that step is a cancel or a modify to zero of the resting order it names, Replaced if and only if it is a modify that resizes that order in place, Expired if and only if it is a clock check that takes that order out |
| `EventRules.CancelReported` | include/lob/photon_book.hpp:164-185 | Every cancel, and every modify to zero, of a resting order puts one Canceled event into the stream, with the side and price the book held, size 0, nothing left |
| `EventRules.ResizeReported` | include/lob/photon_book.hpp:192-196 | Every in-place modify puts one Replaced event into the stream, with the side and price the book held and the new size as quantity and as leaves |
| `EventRules.ExpiryReported` | include/lob/photon_book.hpp:217-232 | Every order a clock check takes out gets exactly one Expired event, with the side, price and size the book held, nothing left |
| `EventRules.SubmitSays` | include/lob/photon_book.hpp:125-162 | All events of a submit, field by field: a rejection alone, or one fill for each trade counting down what is left, then the acknowledgement of what rests, after a rejection when the pool is full |
| `EventRules.StepReports` | include/lob/photon_book.hpp:272-284 | The stream of a history is the events of its steps one after the other, numbered from where each begins |
| `Replays.RebuildsExactly` | include/lob/photon_book.hpp:48-66 | After every prefix of a legal history replaying the stream gives the live orders, sizes and queue order if and only if no order was dropped and no modify resubmitted |
| `Stories.ExpiryExactly` | include/lob/photon_book.hpp:217-232 | After every legal story of commands and clock checks: a check at `now` removes exactly the due GTD orders if and only if there is no earlier submit of an id that now rests on other terms, GTD with its time come and no check at or after that time since |
| `Stories.UsedOnceExpires` | include/lob/photon_book.hpp:217-232 | In every legal story in which no limit id is submitted twice every check removes exactly the resting GTD orders with 0 < expiry <= now |
| `Stories.UsedOnceLeavesUndue` | include/lob/photon_book.hpp:217-232 | The same order by order: each side afterwards is the side before without those orders, all others in place |
| `Stories.HeapHistory` | include/lob/photon_book.hpp:401-403 | An entry waits in the heap if and only if some GTD submit with that id and time came to rest and no check at or after that time has run since; cancels leave it, modifies add none |
| `Stories.StoryTraced` | include/lob/photon_book.hpp:204-210 | Every resting order goes back to the last submit of its id that came to rest, with its side, owner, time in force and expiry, through every modify, fill and check |
| `Stories.StoryHonest` | include/lob/photon_book.hpp:401-403 | With limit ids used once every heap entry is right about the order it names, after every story |
| `Stories.StorySound` | include/lob/photon_book.hpp:217-232 | After every legal story the book is sorted, uncrossed, without duplicates or empty orders, within the pool, and the heap has an entry for every order that can expire |
| `Stories.ToldByEveryPast` | include/lob/photon_book.hpp:217-232 | What a check removes, for every story that could have led to these orders and entries |
| `Expiries.ClockKeeps` | include/lob/photon_book.hpp:217-232 | A check keeps the book good, the heap covering and a truthful heap truthful |
| `Expiries.SubmitHonest` | include/lob/photon_book.hpp:401-403 | One submit keeps a truthful heap truthful when its id has no entry on other terms |
| `Expiries.ExpireKeeps` | include/lob/photon_book.hpp:217-232 | Expiring a list of ids, stale and repeated ones included, filters the book and keeps every other order in place |
| `Expiries.PopsDone` | include/lob/photon_book.hpp:218-222 | When the top is later than now, exactly the due entries have been popped |
| `SpscQueues.PoppedIsHandedIn` | include/lob/spsc_queue.hpp:32-47 | Under every interleaving, stale loads included, what try_pop has handed out, read off the slots it copied, is in order a prefix of what was handed to the calls of try_push that went through, read off the calls; never more than capacity-1 behind |
| `SpscQueues.StaysInHand` | include/lob/spsc_queue.hpp:32-47 | The records of pushed and popped items are those same two sequences after every interleaving |
| `SpscQueues.FifoSafety` | include/lob/spsc_queue.hpp:32-47 | Under every interleaving, stale loads included, what was popped is a prefix of what was pushed, occupancy stays within 0 and capacity-1, and the producer never writes the slot the consumer reads |
| `SpscQueues.StepOk` | include/lob/spsc_queue.hpp:32-47 | Every atomic step of either process keeps the ring's invariant |
| `SpscQueues.RunOk` | include/lob/spsc_queue.hpp:32-47 | The invariant holds after every interleaving |
| `SpscQueues.RefinesFifo` | include/lob/spsc_queue.hpp:32-47 | Only the two index stores change the abstract queue: storing the tail appends the item, storing the head removes the oldest |
| `SpscQueues.PushRefusedExactly` | include/lob/spsc_queue.hpp:33-35 | A push is refused if and only if the queue is full as of the head value it loaded |
| `SpscQueues.PopRefusedExactly` | include/lob/spsc_queue.hpp:42-43 | A pop is refused if and only if the queue is empty as of the tail value it loaded |
| `SpscQueues.NeverStuck` | include/lob/spsc_queue.hpp:32-47 | At every point of either process its next step can be taken: idle, loading, touching the slot and storing; a load can return exactly the values its index has had since the last one seen |
| `SpscQueues.SizeApproxExact` | include/lob/spsc_queue.hpp:49-52 | With both indexes read at once the masked 64-bit difference is the occupancy, wrap-around included |
| `BrowserRace.Race` | report.html:215-215 | All four browser books, fed the same submits and cancels, end with the orders, next id and prints of the reference book's own run |
| `BrowserRace.Apply` | report.html:1199-1259 | One move on all four: same ids, same prints, same orders afterwards |
| `BrowserRace.Look` | report.html:1199-1259 | All four report the same best prices, order count and sizes, and they are the reference's |
| `BrowserRace.PlaySpelledOut` | report.html:1201-1207 | What a move does to the board: ids from 1 on, a limit order without owner, each of its trades printed at its price and size under its own side |
| `BrowserSteps.FillLevel` | report.html:1213-1215 | The inner fill loop always makes progress and trades in queue order |
| `BrowserSteps.SweepOver` | report.html:1201-1203 | When the outer loop stops, exactly the reference sweep has been done |
| `BrowserSteps.RestSound` | report.html:1204-1205 | Pushing the remainder rests it in price-time order |
| `BrowserSteps.CancelSound` | report.html:1206-1207 | Removing an order and its emptied level is the reference cancel |
| `BrowserMaps.OptimizedBook.Submit` | report.html:1201-1205 | Orders, prints and id as the reference book's limit submit |
| `BrowserMaps.OptimizedBook.Cancel` | report.html:1206-1207 | Orders as the reference book's cancel, nothing for an unknown id |
| `BrowserMaps.OptimizedBook.Fill` | report.html:1213-1216 | One call strictly lowers what is left to fill, so the submit loop ends |
| `BrowserMaps.NoCacheBook.Submit` | report.html:1240-1243 | Orders, prints and id as the reference book's limit submit |
| `BrowserMaps.NoCacheBook.Cancel` | report.html:1244-1245 | Orders as the reference book's cancel, nothing for an unknown id |
| `BrowserMaps.NoCacheBook.Fill` | report.html:1250-1253 | One call strictly lowers what is left to fill, so the submit loop ends |
| `BrowserMaps.OptimizedBook.Recompute` | report.html:1211-1212 | The scanned side's cache holds a key of the map that no other key beats, or nothing when there is no key; the other side's cache is left alone |
| `BrowserMaps.BestOfIsBest` | report.html:1211-1212 | There is one such key, and it is the one the uncached book finds |
| `BrowserMaps.NoCacheBook.Best` | report.html:1246-1247 | The best of all keys is the reference's best |
| `BrowserTrees.Bisect` | report.html:1220-1220 | Binary search finds the first level not below the price |
| `BrowserTrees.AddLevel` | report.html:1221-1221 | Inserting a new level there keeps the levels strictly ascending |
| `BrowserTrees.DropLevel` | report.html:1227-1228 | Splicing a level out keeps them ascending |
| `BrowserTrees.IndexOf` | report.html:1259-1259 | The naive walk finds a level's own index |
| `BrowserTrees.EndsAreBest` | report.html:1229-1230 | The last bid level and the first ask level are the best |
| `BrowserTrees.TreeBook.Submit` | report.html:1223-1226 | Orders, prints and id as the reference book's limit submit |
| `BrowserTrees.TreeBook.Fill` | report.html:1233-1236 | One call strictly lowers what is left to fill |
| `BrowserTrees.TreeBook.Cancel` | report.html:1227-1228 | Orders as the reference book's cancel |
| `BrowserTrees.TreeBook.BestBid` | report.html:1256-1256 | The end of the array, or the first non-empty level from the end, is the reference's best bid |
| `BrowserTrees.TreeBook.BestAsk` | report.html:1257-1257 | Likewise for the asks |
| `BrowserTrees.TreeBook.WalkCancel` | report.html:1258-1259 | The naive walk over all levels cancels the same order |

## Left out

- FlatMaps.FlatMap.constructor: expected counts above 2^62 are outside the model, because the doubling loop of the source would wrap around.
- TwinChecks.TwinCheck: covers runs of submit, cancel and modify, because only one of the two books has expiry; after a lookup that would not end there is no state to compare.
- SpscQueues.FifoSafety: the full C++ memory model; slots are read and written atomically, and only index loads can be stale.
- BrowserRace.Race: prices are integers from 0 to 2^63-1 and sizes natural numbers; JavaScript's floating point and string keys are not modelled, nor is the match counter `mc`.
- Duplicate live ids and the two reserved ids 0 and 2^64-1: the source gives them no meaning.
- Wrap-around of the 64-bit sequence number.
- DAY time-in-force: nothing in the code expires it.
- `std::function` and template sinks: the model records what a sink is handed.
- The publisher thread, the parsers, the benchmarks and the ablation variants, which are not equivalent books.
- Replay drivers, demos, feeds, charts and the rest of the report page: input, output and timing.
- Cache-line layout, branch hints and reserved capacity: no influence on results.
