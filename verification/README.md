# AstraConnect: verified core

AstraConnect is a C++ client for Binance. This project models the algorithms and protocols at its
centre and proves what they are meant to guarantee, for every input, every schedule of the threads
and every run. `dafny verify dfyconfig.toml` checks all of it.

- **One side of the order book** (`SortedBook.dfy`, over `Words`, `PriceLevels`, `BookSide`,
  `Placement`, `BookIndex`, `BlockLists`, `BestFirst`). A class with the source's arrays, free-list
  stacks, counters, window and overflow vector. A ghost field `levels` is the plain map from tick to
  entry; every method is proved against it. `Valid()` holds the interlocking invariants: the slots
  in use are named by exactly one level, the blocks in use are placed exactly once, a block's bits
  are its levels, the overflow vector is sorted and lies on the worse side of the window.
- **The ring buffer** (`RingBuffer.dfy`, `RingSafety.dfy`, `RingProgress.dfy`, `RingOperations.dfy`,
  `AtomicRing.dfy`). A
  bounded queue for any number of producers and consumers as a machine whose steps are single atomic
  accesses, and a class with one method per access that follows it.
- **Depth slots** (`DepthSlots.dfy`, `DepthSlotsSafety.dfy`, `DepthSlotsRuns.dfy`,
  `DepthSlotsResults.dfy`, `DepthSlotsOverlap.dfy`, `ArrayHolder.dfy`, `DecodeEntries.dfy`,
  `DepthDecoder.dfy`). The stream thread and the book thread hand 128 array slots back and forth
  through that ring and a counter.
- **Order book synchronisation** (`Exchange.dfy`, `SyncLog.dfy`, `Standing.dfy`,
  `SnapshotIncoming.dfy`, `Orderbook.dfy`). The exchange is a function from update id, side and tick to volume. A faithful
  event carries the volume at its last id of every tick that changed since the previous event ended.
  The book thread is run against arbitrary sequences of events, drops, quiet polls and snapshot
  answers.
- **Fixed-point decimals** (`Decimals.dfy`, `FixedPoint.dfy`, `FixedPrinting.dfy`,
  `FixedMeaning.dfy`). The parser and
  the printer, for a signed type of any width given by its lowest value.
- **The thread pool** (`PoolProtocol.dfy`, `PoolRuns.dfy`, `ThreadPool.dfy`) and the **backoff
  schedule** (`Backoff.dfy`).

What the source's prices must satisfy: `toTick` divides with truncation toward zero, so an off-tick
price below minus half a tick does not round to the nearest tick, although the comment above it says
"anything else rounds to the nearest tick". `BookSide.RoundsToNearestIff` gives the exact condition
and `BookSide.NegativeMisround` a price that fails it. The book itself stays consistent for every
price.

Where `acquire` can wait: the comment at `src/api/orderbook/orderbookArrays.hpp:37` says that it never
waits on a release. It can, when a release of the stream thread overtakes one of the book thread:
`DepthSlotsResults.AcquireWaitsOnlyForRelease` says exactly when, and `DepthSlotsOverlap.AcquireCanWait`
is a run in which it does.

## Model

| member | source | states |
|---|---|---|
| SortedBooks.SortedBook.Update | src/api/orderbook/topBook.hpp:192-225 | on the map of levels an update is exactly a put, an overwrite, a removal or nothing; it is refused exactly when the tick is new, the volume nonzero, and 8192 levels exist or the tick's block is new and 1024 blocks are in use; a refusal changes no field and no array |
| BookSide.StepCases | src/api/orderbook/topBook.hpp:190-225 | the same of one step of a run, in numbers: up to 8192 levels in 1024 blocks of 128 ticks every update is accepted, a new level that finds no room is refused, and overwriting and removing never are |
| BookSide.RunWithinLimits | src/api/orderbook/topBook.hpp:66-68 | no run of updates takes a side past 8192 levels or 1024 blocks |
| SortedBooks.SortedBook.Run | src/api/orderbook/topBook.hpp:178-225 | any sequence of clears and updates, with every recentring on the way, is the same sequence on the map, answer by answer |
| SortedBooks.SortedBook.Find | src/api/orderbook/topBook.hpp:228-235 | finds a price exactly when its tick is in the map, and returns the map's entry |
| SortedBooks.SortedBook.FallbackFind | src/api/orderbook/topBook.hpp:99-102 | the binary search returns the first overflow position not below the block id |
| SortedBooks.SortedBook.FindBlock | src/api/orderbook/topBook.hpp:104-109 | through window or overflow, the block in use for an id, or none exactly when there is none |
| SortedBooks.SortedBook.Place | src/api/orderbook/topBook.hpp:111-119 | the containers then show the placed block as well as all they showed, each once, overflow sorted |
| SortedBooks.SortedBook.Recentre | src/api/orderbook/topBook.hpp:122-136 | around any centre, the same blocks under the same ids as before, redistributed to where the new window requires |
| SortedBooks.SortedBook.AcquireBlock | src/api/orderbook/topBook.hpp:138-150 | fails exactly when no block is free, changing nothing; otherwise the new block is placed, no block lies beyond the window's best edge, and the window moves, to 64 blocks either side of the new one, exactly when it was not centred or the new block lay beyond that edge |
| SortedBooks.SortedBook.ReleaseBlock | src/api/orderbook/topBook.hpp:152-165 | an emptied block leaves its container and returns to the free stack; the rest stay placed and still none lies beyond the best edge; the window stays, or is centred on the best block, and is empty only when the side is |
| SortedBooks.SortedBook.Clear | src/api/orderbook/topBook.hpp:178-188 | from any contents, a valid side with no level and the same tick size |
| SortedBooks.SortedBook.constructor | src/api/orderbook/topBook.hpp:168-172 | a new side is valid and empty |
| SortedBooks.SortedBook.ForEachBest | src/api/orderbook/topBook.hpp:240-267 | overflow, window and overflow again are walked so that each level is listed once, best first |
| SortedBooks.SortedBook.Top | src/api/orderbook/topBook.hpp:270-278 | writes exactly min(count, levels) entries, the best-first prefix of the map; where every price is filed under its own tick, which Run and the order book keep, they are strictly ordered by stored price |
| SortedBooks.SortedBook.RunThenTop | src/api/orderbook/topBook.hpp:178-278 | after any clears and updates of an empty side, the levels written are those of the same run on the map, best first and strictly ordered by stored price, off-tick prices included |
| Orderbooks.Orderbook.GetTop | src/api/orderbook/orderbook.hpp:216-224 | at any point of the book thread's life between its updates, a reader gets the best levels of a side, strictly ordered by stored price |
| Orderbooks.Orderbook.GetEntryWithPrice | src/api/orderbook/orderbook.hpp:236-240 | a reader finds a price exactly when its tick is in the side's map, and gets that entry |
| SortedBooks.SortedBook.LevelCount | src/api/orderbook/topBook.hpp:280 | the number of levels in the map |
| SortedBooks.SortedBook.StackHeights | src/api/orderbook/topBook.hpp:80-86 | levels and free slots make 8192, blocks in use and free blocks make 1024 |
| SortedBooks.SortedBook.FallbackFits | src/api/orderbook/topBook.hpp:77 | the overflow vector never outgrows what was reserved for it |
| BookIndex.SlotConservation | src/api/orderbook/topBook.hpp:84-86 | every entry slot is free or named by exactly one level, never both |
| BookIndex.BlockConservation | src/api/orderbook/topBook.hpp:80-82 | every block is free or placed under exactly one id, its own, never both |
| Placement.WindowHoldsTheBest | src/api/orderbook/topBook.hpp:56-60 | a window with any block in it holds the best block of the side |
| Placement.EdgeOfFallback | src/api/orderbook/topBook.hpp:161-164 | when the window is empty, the end of the overflow that a release recentres on is the best remaining block |
| Placement.FallbackOneSided | src/api/orderbook/topBook.hpp:88-91 | every bid overflow block is below the window and every ask one is at or above its end |
| BestFirst.DownStep | src/api/orderbook/topBook.hpp:31-39 | a leading-zero step lists the highest remaining tick, clears its bit only, and keeps the listing a best-first front |
| BestFirst.UpStep | src/api/orderbook/topBook.hpp:40-48 | a trailing-zero step with remaining & (remaining - 1) lists the lowest remaining tick and drops exactly that bit |
| BestFirst.PrefixInNumbers | src/api/orderbook/topBook.hpp:237-238 | best first in numbers: bids from the highest tick down, asks from the lowest up, and every level left out beyond all that are listed |
| BestFirst.BestPrefixUnique | src/api/orderbook/topBook.hpp:237-238 | the best-first prefix of a given length is unique, so the walk's output is fully determined |
| BestFirst.PricesInOrder | src/api/orderbook/topBook.hpp:237-238 | best first by tick is best first by stored price |
| BookSide.TickBounds | src/api/orderbook/topBook.hpp:95-97 | the tick by its bounds, which fix it for every price: the quotient of price + tickSize/2, cut toward zero |
| BookSide.RoundsToNearestIff | src/api/orderbook/topBook.hpp:93-97 | the tick is a nearest one if and only if price + tickSize/2 is not negative or divides evenly |
| BookSide.NegativeMisround | src/api/orderbook/topBook.hpp:93-97 | a price that does not round to its nearest tick |
| BookSide.MultiplesAreExact | src/api/orderbook/topBook.hpp:93-97 | exchange prices, which are tick multiples, map to their tick exactly |
| BookSide.TicksOrderPrices | src/api/orderbook/topBook.hpp:95-97 | a smaller tick means a smaller stored price |
| BookSide.SnapshotNeverRefused | src/api/orderbook/orderbook.hpp:68-80 | up to 1000 levels applied to a cleared side are accepted, every one |
| RingSafety.StepKeeps | include/AstraLib/Buffers/atomicRingBuffer.hpp:42-72 | every atomic access of every operation keeps the invariant |
| RingSafety.ReachableInv | include/AstraLib/Buffers/atomicRingBuffer.hpp:42-190 | the invariant holds after any schedule of any threads mixing blocking and try operations |
| RingSafety.HandedWasWritten | include/AstraLib/Buffers/atomicRingBuffer.hpp:42-72 | what read ticket t was handed is what write ticket t wrote |
| RingSafety.HistoriesOnlyGrow | include/AstraLib/Buffers/atomicRingBuffer.hpp:42-72 | each ticket is drawn, written and handed over once, by the thread that drew it, and no step revises it |
| RingSafety.MutualExclusion | include/AstraLib/Buffers/atomicRingBuffer.hpp:42-72 | no two threads are ever inside the same slot's data |
| RingSafety.SeqMovesForward | include/AstraLib/Buffers/atomicRingBuffer.hpp:36-72 | a slot's sequence number only goes from t to t + 1 and from t + 1 to t + size |
| RingSafety.CasFindsSlotFree | include/AstraLib/Buffers/atomicRingBuffer.hpp:171-190 | a successful exchange in tryEnqueue finds its slot still free, so it never waits |
| RingSafety.CasFindsItemPublished | include/AstraLib/Buffers/atomicRingBuffer.hpp:133-152 | a successful exchange in tryDequeue finds its item published |
| RingSafety.RefusedEnqueue | include/AstraLib/Buffers/atomicRingBuffer.hpp:126-129 | a refusal takes no ticket, changes no shared state, and the reader of one lap earlier had not freed the slot |
| RingSafety.RefusedDequeue | include/AstraLib/Buffers/atomicRingBuffer.hpp:131-152 | a refusal takes no ticket, changes no shared state, and the item had not been published |
| RingProgress.NoDeadlock | include/AstraLib/Buffers/atomicRingBuffer.hpp:42-72 | when no holder of a ticket can move, they are all producers before exactly `size` unread items, or all consumers with nothing unread; never both |
| RingProgress.HoldersAreWaiting | include/AstraLib/Buffers/atomicRingBuffer.hpp:42-72 | the threads inside an operation are exactly the drawers of unfinished tickets |
| RingProgress.OneSlotIsUnsafe | include/AstraLib/Buffers/atomicRingBuffer.hpp:29-30 | with one slot a run exists that puts a writer and a reader into the same data, so size >= 2 is needed |
| RingProgress.CannotMoveIff | include/AstraLib/Buffers/atomicRingBuffer.hpp:45-67 | a ticket holder is stuck exactly when its next access changes nothing |
| RingOperations.TryEnqueueAlone | include/AstraLib/Buffers/atomicRingBuffer.hpp:171-190 | in any reachable state, tryEnqueue with no other thread in between answers in at most five accesses: true, with the item under the next ticket, exactly when the item one lap earlier has been handed out or the ring was never full; otherwise false with nothing changed |
| RingOperations.TryDequeueAlone | include/AstraLib/Buffers/atomicRingBuffer.hpp:133-152 | likewise tryDequeue: it hands over the oldest item exactly when that has been published |
| RingOperations.EnqueueAlone | include/AstraLib/Buffers/atomicRingBuffer.hpp:42-50 | enqueue with no other thread in between puts the item in when there is room and waits when there is none |
| RingOperations.DequeueAlone | include/AstraLib/Buffers/atomicRingBuffer.hpp:62-72 | dequeue hands over the oldest item when it has been published and waits when it has not |
| RingOperations.TryEnqueueGetsOn | include/AstraLib/Buffers/atomicRingBuffer.hpp:172-188 | with others in between, tryEnqueue tries the ticket writeTicket held when it looked, and goes round again only if another thread has taken that ticket |
| RingOperations.TryDequeueGetsOn | include/AstraLib/Buffers/atomicRingBuffer.hpp:134-150 | the same of tryDequeue and readTicket |
| AtomicRings.AtomicRingBuffer.PollForWrite | include/AstraLib/Buffers/atomicRingBuffer.hpp:45-47 | one look at the slot in place is one step of the machine |
| AtomicRings.AtomicRingBuffer.ExchangeWriteTicket | include/AstraLib/Buffers/atomicRingBuffer.hpp:177 | the exchange in place, spurious failure included, is one step of the machine |
| DepthSlotsResults.OneOwner | src/api/orderbook/orderbookArrays.hpp:12-17 | in every reachable state each of the 128 slots is held once in all: by the ring, the stream thread, one queued event or the book thread |
| DepthSlotsResults.QueuedApart | src/api/orderbook/orderbookArrays.hpp:12-17 | two queued events never share arrays, nor share them with a thread at work on a slot |
| DepthSlotsResults.EventsIntact | src/api/orderbook/orderbookArrays.hpp:12-17 | the arrays of a queued or held event still hold what the decoder put there |
| DepthSlotsResults.AcquireWaitsOnlyForRelease | src/api/orderbook/orderbookArrays.hpp:31-41 | an acquire past the count test draws a ticket below writeTicket, and waits if and only if the book thread's release under way holds that ticket |
| DepthSlotsResults.NoOverlapNoWait | src/api/orderbook/orderbookArrays.hpp:37-41 | when no release of the stream thread began after the book thread's, the acquire does not wait |
| DepthSlotsOverlap.AcquireCanWait | src/api/orderbook/orderbookArrays.hpp:31-41 | a reachable state in which an acquire past the count test draws the ticket of the book thread's unpublished release, and its poll then changes nothing |
| DepthSlotsResults.ReleaseNeverWaits | src/api/orderbook/orderbookArrays.hpp:37-41 | a release finds its place in the ring free at the first look |
| DepthSlotsResults.RefusedMeansAllOut | src/api/orderbook/orderbookArrays.hpp:30-32 | between acquires the count is zero exactly when all slots are in queued events or with the book thread |
| DepthSlotsResults.NothingLeaks | src/api/orderbook/decodeEntries.hpp:26-37 | a dropped event has given its slot back: with no event queued or held, all 128 count as free |
| DepthSlotsResults.BufferFits | src/core/streams/websocketStreamHolder.hpp:89 | the stream's buffer never holds more than 1024 messages |
| DepthSlotsRuns.NextKeeps | src/api/orderbook/orderbookArrays.hpp:31-41 | every atomic access of either thread keeps the ownership invariant |
| DepthSlotsSafety.SlotCount | src/api/orderbook/orderbookArrays.hpp:20-27 | tickets in the ring, slots in hand and slots in events add up to the number of slots |
| ArrayHolders.OrderbookArrayHolder.constructor | src/api/orderbook/orderbookArrays.hpp:46-48 | after the constructor's enqueues, every slot is in the ring, counted, in order |
| ArrayHolders.OrderbookArrayHolder.PollForPlace | src/api/orderbook/orderbookArrays.hpp:38-41 | the wait inside a release ends at its first poll |
| ArrayHolders.OrderbookArrayHolder.FreePlace | src/api/orderbook/orderbookArrays.hpp:31-35 | acquire ends with a slot number in range that is now the decoder's |
| ArrayHolders.OrderbookArrayHolder.Acquire | src/api/orderbook/orderbookArrays.hpp:31-35 | with no release under way and no other thread in between, the whole call is a run of the machine, fails exactly when the count is zero, and otherwise returns without a wait a slot that is then the decoder's |
| ArrayHolders.OrderbookArrayHolder.Release | src/api/orderbook/orderbookArrays.hpp:38-41 | by either thread, with no other in between, the whole call is a run of the machine that never waits and counts the slot once it is published |
| DecodeEntries.ReadLevels | src/api/orderbook/decodeEntries.hpp:43-60 | all levels are read if and only if there are at most 1024 and each begins with two numbers; otherwise it stops at the first that does not; each level read is stored with its first field as price and its second as volume |
| DecodeEntries.Decode | src/api/orderbook/decodeEntries.hpp:22-32 | a message can be read if and only if both sides and all three ids can, and then each level is in its side's array, first field as price, second as volume |
| DecodeEntries.DecodableFields | src/api/orderbook/decodeEntries.hpp:22-60 | which messages those are, field by field |
| DepthDecoders.DecodeMessage | src/api/orderbook/decodeEntries.hpp:16-38 | a message becomes an event if and only if a slot was free and it can be read; the event's slot then holds exactly its levels, each first field as price and second as volume, under its ids; without an event no slot is kept |
| Orderbooks.Orderbook.ExecutionLoop | src/api/orderbook/orderbook.hpp:167-198 | the whole life of the thread: nothing is requested unless the stream delivers an event before it gives up and before a stop, and the first round begins with that event buffered; its history is a sequence of legal rounds over the stream's events in order, none left out; at every head of the update loop the book agrees with the exchange at its own id; it ends with running false, for a reason it records or because the owner asked, and with a reason recorded the book is not flagged synced |
| Orderbooks.Orderbook.SyncLoop | src/api/orderbook/orderbook.hpp:176-197 | from a loaded book to the stop: rounds, agreement and reason as above; Outdated exactly after five rounds in a row that looked at an event and did not align, with nobody asking to stop; SnapshotFailed only after three failed requests in one round or a stop while asking |
| Orderbooks.Orderbook.AlignAndFollow | src/api/orderbook/orderbook.hpp:181-196 | a round after its snapshot: the events skipped are covered, the first other one straddles the snapshot's id or the round fails, and the stream is followed to the first event that does not continue the book |
| Orderbooks.Orderbook.UpdateLoop | src/api/orderbook/orderbook.hpp:192-196 | applies exactly the events that each start where the last ended and fit, in order, and leaves the book they produce; the event that ends it was dropped, has another pu than the book's id, or has a level refused; without one it is stopping |
| Orderbooks.Orderbook.Advance | src/api/orderbook/orderbook.hpp:192-196 | one event is applied if and only if it was not dropped, its pu is the book's id, whatever its U, and no level of either side is refused |
| Orderbooks.Orderbook.ApplyFirstUpdate | src/api/orderbook/orderbook.hpp:137-153 | takes exactly the events with u below the snapshot's id and the next one, which is applied if and only if U <= id <= u, both ends included, and no level is refused; every event taken is released; a book not flagged synced stays so |
| Orderbooks.Orderbook.NextUpdate | src/api/orderbook/orderbook.hpp:126-130 | delivers the stream's next event, or none and then only for a stop, a dead stream or the end |
| Orderbooks.Orderbook.Resynchronise | src/api/orderbook/orderbook.hpp:83-94 | clears synced, asks at most three times, and the first answer that comes replaces the book, which then agrees with the exchange at the snapshot's id; with none, three were asked for or the thread is stopping |
| Orderbooks.Orderbook.FetchWithRetries | src/api/orderbook/orderbook.hpp:85-91 | requests are answered in order; a further one is made exactly after a failure, short of three, with the thread still running |
| Orderbooks.Orderbook.ApplyUpdate | src/api/orderbook/orderbook.hpp:98-108 | bids, then asks, in order, up to the first level refused; succeeds exactly when none is, and only then moves the id |
| Exchange.AcceptedInNumbers | src/api/orderbook/orderbook.hpp:98-105 | all levels of a side are accepted exactly when none of them is a new one met by 8192 levels, or one that opens a block met by 1024 blocks |
| Orderbooks.Orderbook.ApplySnapshot | src/api/orderbook/orderbook.hpp:68-80 | whatever the snapshot says, each side becomes its entries before the first zero price applied to an empty side, and the id becomes the snapshot's |
| Orderbooks.Orderbook.WaitForUpdate | src/api/orderbook/orderbook.hpp:112-123 | never blocks a shutdown: once stopping, the first look that finds no event ends the wait; no event is lost; on false, running is false, and a reason recorded here is a dead stream and clears synced |
| Standings.WaitByLooks | src/api/orderbook/orderbook.hpp:112-123 | the whole wait look by look: which looks are passed over, which one ends it, and what becomes of running, synced and the reason |
| Standings.DeliversIff | src/api/orderbook/orderbook.hpp:171-173 | the stream delivers an event in time exactly when every look before the first that finds one finds it alive |
| Orderbooks.Orderbook.Stop | src/api/orderbook/orderbook.hpp:54-58 | records the reason and clears synced and running |
| Orderbooks.Orderbook.LoadTickSize | src/api/orderbook/orderbook.hpp:156-165 | succeeds exactly for a positive tick size, and then both sides use it |
| Exchange.EventCarriesAgreement | src/api/orderbook/orderbook.hpp:98-108 | agreement at an id the event reaches back to becomes agreement at the event's last id, on all ticks covered or listed |
| Exchange.SnapshotAgrees | src/api/orderbook/orderbook.hpp:68-80 | a snapshot on empty sides agrees with the exchange at its id on every tick it settles |
| SyncLog.HeadHolds | src/api/orderbook/orderbook.hpp:190-196 | at every head of the update loop, each tick that the last snapshot settled, or that an event applied since lists, holds the exchange's volume at the book's id |
| SyncLog.HeadIsTheExchange | src/api/orderbook/orderbook.hpp:190-196 | after a snapshot that lists every level, the book equals the exchange's at every head: none missing, none left over |
| SyncLog.RoundById | src/api/orderbook/orderbook.hpp:137-153 | a legal round by the events' own ids: those before alignment end below the snapshot's id, each later one has the last one's u as its pu, and what ends either stage was dropped, breaks that, or is refused |
| SyncLog.PatientBetween | src/api/orderbook/orderbook.hpp:48-50 | between two alignments at most 5 resynchronisations and 15 snapshot requests, counted mark by mark |
| SyncLog.TrackOn | src/api/orderbook/orderbook.hpp:190-196 | one more continuing event extends the walk, its book and its marks |
| SyncLog.RunOn | src/api/orderbook/orderbook.hpp:176-197 | one more legal round extends the run, its events and its marks |
| SyncLog.AppliedInStep | src/api/orderbook/orderbook.hpp:137-139 | both sides stay in step with the exchange across an applied event |
| SyncLog.SnapInStep | src/api/orderbook/orderbook.hpp:83-94 | both sides are in step after a snapshot |
| SnapshotBuffers.OrderbookSnapshotIncoming.RegisterEntry | src/api/orderbook/orderbookSnapshotIncoming.hpp:16-58 | appends to its side, up to the capacity |
| SnapshotBuffers.OrderbookSnapshotIncoming.GetBid | src/api/orderbook/orderbookSnapshotIncoming.hpp:16-58 | hands out the bids in the order they were registered, then the zero entry |
| SnapshotBuffers.OrderbookSnapshotIncoming.GetAsk | src/api/orderbook/orderbookSnapshotIncoming.hpp:16-58 | hands out the asks in the order they were registered, then the zero entry |
| FixedPoint.ParseFixed | src/utils/decimal/fixedPoint.hpp:37-82 | accepts a string if and only if it is an optional sign, digits and at most one point with at least one digit, and its value rounded to 8 decimals fits the type; the result is that value; a rejected string leaves out untouched |
| FixedPoint.Scan | src/utils/decimal/fixedPoint.hpp:50-69 | the unsigned accumulator never exceeds negLimit, and rejecting early never rejects a string whose value fits |
| FixedPoint.PrefixBelow | src/utils/decimal/fixedPoint.hpp:66 | however it goes on, a numeral is at least what its first digits say |
| FixedMeaning.WellFormedHasParts | src/utils/decimal/fixedPoint.hpp:45-70 | every accepted string is an optional sign, digits, and at most a point with further digits |
| FixedMeaning.PartsAreWellFormed | src/utils/decimal/fixedPoint.hpp:45-70 | and every such string with a digit in it is well formed |
| FixedMeaning.AcceptableIff | src/utils/decimal/fixedPoint.hpp:70-79 | a string is accepted exactly when it is well formed and its value is one the type has |
| FixedMeaning.ValueOfParts | src/utils/decimal/fixedPoint.hpp:12-14 | the value is the nearest count of hundred-millionths to what the digits spell, ties away from zero, with the sign |
| FixedMeaning.DocumentedValues | src/utils/decimal/fixedPoint.hpp:12 | "84523.1" is 8452310000000 and "0.001" is 100000 |
| FixedMeaning.HalfRoundsAway | src/utils/decimal/fixedPoint.hpp:37 | half a hundred-millionth rounds away from zero on either side |
| FixedMeaning.DocumentedPrints | src/utils/decimal/fixedPoint.hpp:84-85 | 84523.1, 0 and -0.5 are printed so |
| Decimals.MagnitudeIsNearest | src/utils/decimal/fixedPoint.hpp:37 | the magnitude is the nearest integer count of 10^-8 units, ties away from zero, and no other integer is |
| FixedPrinting.FormatFixed | src/utils/decimal/fixedPoint.hpp:84-109 | prints the canonical form of every value of either width, the lowest included, within its two buffers |
| FixedPrinting.ParsePrinted | src/utils/decimal/fixedPoint.hpp:84-85 | a printed value is accepted and read back as itself, for every value of the type |
| FixedPrinting.PrintedIsCanonical | src/utils/decimal/fixedPoint.hpp:84-85 | no plus, no spare zero at either end, a digit before the point, no negative zero |
| FixedPrinting.PrintParsed | src/utils/decimal/fixedPoint.hpp:84-85 | printing what a canonical string means returns the string |
| PoolRuns.NextKeeps | include/AstraLib/Threading/ThreadPool.hpp:60-180 | every step of the dispatcher, a worker or an assigning thread keeps the invariant |
| PoolRuns.OnePlace | include/AstraLib/Threading/ThreadPool.hpp:120-180 | an assigned task is in exactly one place: queued, with the dispatcher, with its worker, or started |
| PoolRuns.StartsOnce | include/AstraLib/Threading/ThreadPool.hpp:60-75 | a worker past its gate finds a task nobody has started |
| PoolRuns.GivenOnlyWhenFree | include/AstraLib/Threading/ThreadPool.hpp:77-82 | a task is stored only in a worker that holds none and is blocked at its gate |
| PoolRuns.OneHolder | include/AstraLib/Threading/ThreadPool.hpp:136-172 | no two workers ever hold the same task |
| PoolRuns.HistoriesOnlyGrow | include/AstraLib/Threading/ThreadPool.hpp:129-180 | a task once given or started stays with that worker |
| PoolRuns.NoLostWakeup | include/AstraLib/Threading/ThreadPool.hpp:120-180 | a queued task means the dispatcher is awake, its gate is open, or that task's own assigner is about to open it |
| PoolRuns.QueueNeverOverruns | include/AstraLib/Threading/ThreadPool.hpp:107 | however many tasks are assigned, no published one is 1024 places or more ahead of the oldest still queued |
| PoolRuns.StuckMeansDone | include/AstraLib/Threading/ThreadPool.hpp:26-42 | if nothing can move, every assigned task has been started, every worker is free, and no assigner is left waiting for one of the queue's 1024 places |
| ThreadPools.ThreadPool.TryClaim | include/AstraLib/Threading/ThreadPool.hpp:142-152 | one exchange on a pool flag, in place, is one step; the next worker tried is the neighbour |
| ThreadPools.ThreadPool.StartTask | include/AstraLib/Threading/ThreadPool.hpp:62-66 | the worker loop's step in place: the task is there and has not been started |
| ThreadPools.ThreadPool.AssignTask | include/AstraLib/Threading/ThreadPool.hpp:120-124 | with room in the queue, the whole call is three steps of the machine: the task is published under its ticket and the dispatcher's gate is open |
| ThreadPools.ThreadPool.HandOut | include/AstraLib/Threading/ThreadPool.hpp:138-170 | the scan and the hand-over are a run of the machine that gives the task to the first free worker round from lastIdDispatched, opens its gate, and starts the next scan behind it |
| ThreadPools.ThreadPool.DispatchAll | include/AstraLib/Threading/ThreadPool.hpp:136-172 | the inner loop is a run of the machine that empties the queue and leaves every task at the open gate of a worker of its own |
| ThreadPools.ThreadPool.DispatcherTurn | include/AstraLib/Threading/ThreadPool.hpp:132-179 | one turn of the outer loop is a run of the machine that empties the queue and closes the gate behind it |
| ThreadPools.ThreadPool.RunWorker | include/AstraLib/Threading/ThreadPool.hpp:61-74 | one turn of a worker's loop is a run of the machine that starts the task it was given, for the first time, and leaves the worker free |
| Backoff.ExponentialBackOff | src/utils/net/exponentialBackOff.hpp:85-113 | over any number of rounds: CLOSED follows a refusal at once with no attempt after it, SUCCESS the first attempt that works, FAIL the attempt that exhausts the schedule, and otherwise every round failed with the schedule unexhausted; the waiting requested is the sum of the schedule; the interrupt is left as its signals and resets say |
| Backoff.ExponentialBackOffAlways | src/utils/net/exponentialBackOff.hpp:115-122 | without a shutdown condition it never answers CLOSED, and SUCCESS and FAIL as above |
| Backoff.EndsIff | src/utils/net/exponentialBackOff.hpp:92-112 | failures alone end the loop for every policy but these: maxTryCount 0 with a positive delay times zero, or with a negative delay growing |
| Backoff.ExhaustedExactly | src/utils/net/exponentialBackOff.hpp:50-55 | a growing schedule is exhausted after exactly maxTryCount attempts |
| Backoff.DefaultSchedule | src/utils/net/exponentialBackOff.hpp:56-61 | the default schedule ends at the seventh failure, at a ceiling of 64 s, after 63.5 s of waiting |
| Backoff.TotalWait | src/utils/net/exponentialBackOff.hpp:50-69 | it requests delay * (f^n - 1) / (f - 1) of waiting, which is below maxDelay |
| Backoff.BackoffInterrupt.WaitFor | src/utils/net/exponentialBackOff.hpp:45-48 | the loop of tests and wakes, other threads signalling and resetting in between, answers true exactly when a test finds the flag set |
| Backoff.SignalIsSeen | src/utils/net/exponentialBackOff.hpp:18-23 | where nobody resets, a wait is cut short if and only if a signal came before it or during it |
| Backoff.SignalsStick | src/utils/net/exponentialBackOff.hpp:22-23 | over any number of waits and the gaps between them, no signal is lost |

## Left out

- Sockets, TLS, REST, reconnecting and JSON parsing: the stream is a sequence of polls, a snapshot request an oracle, a message a sequence of fields any of which may throw.
- Request building, signing, order sending, payload classes, enum and error tables, getters: flat copies and switches.
- The lock between the book thread and its readers, and what a reader sees in the middle of an update.
- C++ memory orderings, fences and futexes: steps are sequentially consistent and a gate wait is "blocked until the flag is 1".
- Overflow of int64 in `price + tickSize / 2`, in tickets and in `backoff`, and the rounding of `std::pow`.
- `clearBuffer`, `batchDequeue`, `claimPtrNoSync`, `approxSize`: for a quiet ring or a single consumer. `isEmpty` appears only where its one caller is the single consumer, as one step.
- Pointers to blocks are indices, and a block is a datatype value inside the array `blocks`; `std::sort` is an insertion sort with the same result.
- `update`, `forEachBest`, `parseFixed`, `formatFixed`, `resync` and `executionLoop` are split into several methods; `forEachBest` is modelled for the callback of `top`.
- The buffer between stream and book thread is a sequence of at most 1024 messages whose enqueue and dequeue are one step each; the ring machine covers its own steps.
- SortedBooks.SortedBook.Update: assumes a positive tick size, which the order book sets before any update.
- Orderbooks.Orderbook.GetEntryWithPrice: assumes the tick size has been loaded; before that the source's division by it has no meaning.
- Orderbooks.Orderbook.ExecutionLoop: the sequence of polls is finite and its end counts as the owner's stop; agreement is with a faithful exchange whose snapshots list at most 1000 nonzero prices a side, and is claimed on the ticks the snapshot settled or a later event listed.
- PoolRuns.StuckMeansDone: starting and destroying the pool are not modelled, and tasks return.
- ThreadPools.ThreadPool.DispatcherTurn: the composed loops of the pool run with no other thread in between and with a free worker for every queued task; interleavings are covered step by step by PoolRuns.
- ArrayHolders.OrderbookArrayHolder.Acquire: composed with no other thread in between; interleavings are covered access by access by DepthSlotsRuns.
- DepthDecoders.DecodeMessage: as Acquire; the slot's two arrays are written as one value.
- Backoff.ExponentialBackOff: covers a prefix of `rounds` rounds, because the loop need not end; a negative maxTryCount, whose power is a fraction cut to an integer, is not modelled.
- Backoff.BackoffInterrupt.WaitFor: the mutex and the condition variable are not modelled themselves; other threads act only while the waiter is asleep, and a wait is a list of their turns, each ending in a wake.
- Performance, timers, debug output and `toDouble`.
