# Order book and feed receiver: model and proofs

This project models a Nasdaq TotalView-ITCH feed handler in Dafny. The program
has a simple order book (v1: sorted maps of lists and a locator index) and a
fast one (v3: intrusive lists in one shared pool, one shared open-addressing
table, a 2 x 1024 price window with a bitmap and cached best indices), receivers
that track missing sequence numbers, and a sender that packs a message file into
MoldUDP64 packets (Nasdaq MoldUDP64 Protocol Specification, "Downstream Packet").

## What is proved

**The array book refines the simple book.** `BookSpec` gives a book a meaning:
for each side and price a queue of (reference, shares) in FIFO order. Both book
classes carry an abstraction function `View` to that meaning, and every handler
is a step on it. `Equivalence.Replay` puts the layers together: for every feed
that meets the assumptions below, over any number of symbols and any hash, the
two markets denote the same books after every message, and the top of book of
the symbol concerned is the same after every message. The repository samples
this by replaying one file.

The layers under that theorem:

- `RefLayout`, `RefTables`: linear probing with backward-shift deletion. Erase
  removes exactly one key, and after any history the occupied slots are a
  function of the live keys alone.
- `OrderPools`: the free list threaded through the slots.
- `LevelLists`, `Bitmap`, `LevelAddressing`: the queue at a level as an
  intrusive list, the nearest set bit across words, and level indices as a stable
  injection of (side, price).
- `BookImage`, `BookImageView`, `TopOfBook`, `ArrayBook`: the invariant of one
  book over a pool it shares with other books, what each step denotes, and the
  class with the program's handlers.
- `MarketSpec`, `ArraySpec`: what a message means to all books together, and what
  the array books make of any message, room or not: a dropped add, an order the
  table has lost, an over-fill.
- `ArrayMarkets`, `BaselineMarkets`, `Equivalence`, `Divergences`: all symbols over
  one pool and one table: isolation, ownership of every slot, equivalence, and the
  feeds on which the generations part.

Outside the assumptions the two generations part, and exactly where is a theorem
too: `Equivalence.ReplayFeed` shows that the array books follow `ArraySpec` on every
feed whose references are fresh to both generations, and `ArraySpec.AgreeThroughoutIff` that they hold the
same books as v1 all along if and only if every message meets one condition in the
state it finds.

**The gap tracker accepts every sequence number at most once and forgets none.**
`GapTracking` and `GapOrder` prove the exactly-once partition, complete recovery,
independence of arrival order, and the relation to the simpler tracker of v1;
`GapCounts` says what every counter counts.
`Receiver` ties the receive loops to these state machines.

**Framing is a round trip.** `Wire`, `Sender` and `Receiver` prove that the
reader, the greedy packer and the unpack loop compose to the identity, also when
packets arrive repeated and reordered.

## Feed assumptions

Stated in `MarketSpec.Feedable` (references), `MarketSpec.Admissible` (fills and
room), `Equivalence.Replay` and `GapTracking.InBounds`:

- A reference is below 2^64 - 1, the table's empty key, and is new to the whole market
  when an order takes it; a replacement may keep its reference.
- A message names the symbol of its order.
- A fill does not exceed the open shares.
- When an order is added the pool has a free slot and the table is below half
  load.
- Table capacity is a power of two, at least two; the pool has 1 to 2^32 - 1
  slots; a symbol's adds and replacements ask for so few different prices that
  2048 plus twice their number is below 2^31 - 1, whatever the length of the feed.
- Sequence numbers start at one, stay in 64 bits, and a packet is ahead of the
  expected number by less than 2^16.

Where an assumption is needed because the program diverges without it, the exact
condition is a theorem, with a concrete case beside it:

- One message takes equal books of the two generations to equal books if and only
  if `ArraySpec.Agrees` holds (`Equivalence.StepBoth`, for any state of the pool and
  the table): an add finds a free slot; a fill of an order the table knows, or of
  none, is covered; and a message about an order the table has lost is a fill of no
  shares of an order that has some, or the replacement of the last order of a queue
  by itself.
  On an over-fill v1 keeps an order with wrapped-around shares
  (`src/v1/order_book.cpp:25`) that v3 removes (`OverfillDiverges`). An exhausted
  pool drops the order from v3 alone (`ExhaustedPoolDiverges`), and the comparison
  of tops sees it (`ExhaustedPoolMismatches`). From half load on
  the table refuses references, so v3 keeps an order that it can no longer find and
  ignores its deletion (`HalfLoadDiverges`); with the sizes in
  `src/v3/receiver.cpp:66-67` that begins at 2^17 live orders, seven eighths of the
  pool still free.
- Starting from a state in which every order is known, that remains so if and only
  if an add that takes a slot finds the table below half load
  (`ArrayBook.OrderBook.AddOrder`).
- A gap is recorded in full if and only if the jump is below 2^16
  (`JumpFitsIff`); the length is cast to 16 bits (`src/v3/receiver.cpp:127`), so
  a jump of 2^16 is recorded as no gap at all (`LongJumpLosesNumbers`).
- The repository's README (lines 230-233) says that gap tracking keeps late
  packets from being thrown away as duplicates. An empty packet inside a gap, or
  one ahead, can cost a late packet its recovery (`EmptyPacketLosesAnother`,
  `EmptyPacketAheadLosesAnother`). In any state, everything missed can be
  recovered if and only if each gap is followed by a taken number
  (`RecoversAllIff`). A packet keeps that so if and only if it is neither empty
  and ahead nor empty and strictly inside a gap (`StepBounds`), and it holds all
  along a run if and only if no packet after the first is of that kind
  (`RecoverableThroughoutIff`). `CompleteRecovery` draws the conclusion for runs
  of non-empty packets.

Fields that exist only in the proof (`Contents`, `free`, `live`, `lists`, `View`,
`groups`, ...) are ghost. `PooledOrder` stores no reference, so the ghost tag of a
live slot names its book and its reference; the invariant makes that tag agree with
the table wherever the table knows the reference.

## Model

| member | source | states |
|---|---|---|
| Numbers.MaskIsModulo | include/v3/ref_table.hpp:68 | Masking a hash with capacity - 1 is the hash modulo the capacity, for every power of two. |
| Numbers.MaskedSuccessor | include/v3/ref_table.hpp:34 | Adding one under the mask is the cyclic successor of a slot. |
| Numbers.Widths | include/v3/object_pool.hpp:7 | The limits the assumptions speak of are those of 16, 32 and 64 bits, and the null index is the last 32-bit number. |
| RefLayout.HomeIsMasked | include/v3/ref_table.hpp:68 | A key's home is its hash under the mask. |
| RefLayout.CanMoveIsOnPath | include/v3/ref_table.hpp:37 | The index comparison that decides a move is true exactly when the hole lies on the cyclic path from the key's home to its slot, across wraparound. |
| RefLayout.ShiftStart | include/v3/ref_table.hpp:28-32 | A stored key's slot can become the hole of a backward shift. |
| RefLayout.ShiftSkip | include/v3/ref_table.hpp:33-38 | Stepping over a key that does not need the hole keeps the shift invariant and gets closer to an empty slot. |
| RefLayout.ShiftMove | include/v3/ref_table.hpp:38-41 | Moving a key into the hole keeps every key reachable, with its slot as the new hole. |
| RefLayout.ShiftDone | include/v3/ref_table.hpp:35-43 | At the next empty slot, emptying the hole leaves a layout of exactly the other keys with their values. |
| RefLayout.EraseMove | include/v3/ref_table.hpp:38-41 | An entry moves back only when the erased key was stored, and then every key stays reachable. |
| RefLayout.OccupiedIffCrowded | include/v3/ref_table.hpp:13-45 | A slot is occupied exactly when some stretch of slots ending there is home to at least as many stored keys as it has slots. |
| RefLayout.SameKeysSameSlots | include/v3/ref_table.hpp:13-45 | Two layouts of one capacity and the same keys occupy the same slots. |
| RefTables.NoResidue | README.md:215-218 | Two tables of one capacity with the same live keys occupy the same slots, whatever inserts and erases came before: deletion leaves nothing behind. |
| RefTables.EmptyStopMeansAbsent | include/v3/ref_table.hpp:67-73 | A probe that stops at an empty slot proves that the key is stored nowhere. |
| RefTables.InsertLayout | include/v3/ref_table.hpp:15-20 | Writing a pair where its probe stopped leaves every other key reachable with its value. |
| RefTables.RefTable.constructor | include/v3/ref_table.hpp:11 | A new table is empty and meets the table invariant. |
| RefTables.RefTable.Probe | include/v3/ref_table.hpp:67-73 | Every probe terminates, for the key that marks empty slots too: at the key's slot when it is stored and at an empty slot otherwise, after passing only occupied slots of other keys. |
| RefTables.RefTable.Insert | include/v3/ref_table.hpp:13-21 | Below half load the table is updated at one key; from half load on nothing changes, so size never exceeds half the capacity. The table stays consistent if and only if the key is below 2^64 - 1, the one that marks empty slots, or the load is reached. |
| RefTables.RefTable.Find | include/v3/ref_table.hpp:23-26 | For every key below 2^64 - 1, the value stored or 0xFFFFFFFF exactly when there is none; the key 2^64 - 1, which marks empty slots, finds what an empty slot still holds. |
| RefTables.RefTable.Erase | include/v3/ref_table.hpp:28-45 | Exactly one key is removed: every other key keeps its value and stays reachable; an absent key changes no slot. The table stays consistent if and only if the key is below 2^64 - 1; erasing 2^64 - 1, which marks empty slots, moves nothing and lowers the size count, with wrap-around at zero. |
| RefTables.RefTable.ShiftBack | include/v3/ref_table.hpp:32-42 | The shifting loop ends with a hole whose emptying leaves a layout without the erased key; for the key that marks empty slots it moves nothing. |
| OrderPools.OrderPool.constructor | include/v3/object_pool.hpp:19-24 | The free list is all slots in index order and no slot is live. |
| OrderPools.OrderPool.Allocate | include/v3/object_pool.hpp:26-31 | The first free slot, which was not live, becomes live; null exactly when none is free. |
| OrderPools.OrderPool.Release | include/v3/object_pool.hpp:33-36 | A live slot goes to the front of the free list, and only its next link is written. |
| OrderPools.PopChain | include/v3/object_pool.hpp:28-29 | Following the head's link leaves an acyclic chain of exactly the other free slots. |
| OrderPools.PushChain | include/v3/object_pool.hpp:34-35 | Putting a slot that is not free in front keeps the chain acyclic. |
| Bitmap.SetAtSets | src/v3/order_book.cpp:70 | Setting a level's bit sets that level and no other among 2048. |
| Bitmap.ClearAtClears | src/v3/order_book.cpp:101 | Clearing a level's bit clears that level and no other. |
| Bitmap.LowMask | src/v3/order_book.cpp:112 | The mask keeps exactly the bits at or below a position, including position 63. |
| Bitmap.HighMask | src/v3/order_book.cpp:127 | The mask keeps exactly the bits at or above a position. |
| Bitmap.CountLeadingZeros | src/v3/order_book.cpp:114 | Names the highest set bit of a nonzero word. |
| Bitmap.CountTrailingZeros | src/v3/order_book.cpp:130 | Names the lowest set bit of a nonzero word. |
| Bitmap.FindPrevSet | src/v3/order_book.cpp:108-119 | The nearest set level at or below the start, across words, or -1 exactly when there is none. |
| Bitmap.FindNextSet | src/v3/order_book.cpp:121-135 | The nearest set level at or above the start, across words, or -1 exactly when there is none. |
| LevelAddressing.KeyOfLevelOf | src/v3/order_book.cpp:11-51 | Reading a level's index back gives the side and price it was given out for, for every 32-bit price, sub-cent and overflow prices and negative bases included. |
| LevelAddressing.LevelsAreInjective | src/v3/order_book.cpp:31-51 | Two different (side, price) pairs never share a level. |
| LevelAddressing.LevelOfKeyOf | src/v3/order_book.cpp:17-29 | An index is the level of the pair it reads back as if and only if it is an overflow index or its window price fits in 32 bits. |
| LevelAddressing.AssignKeeps | src/v3/order_book.cpp:31-51 | Asking for a level gives the level of that pair and changes no answer given before. |
| LevelAddressing.FirstPriceCentres | src/v3/order_book.cpp:32-41 | The first whole-cent price of a book gets level 512 as a bid and 1536 as an ask. |
| LevelAddressing.WindowIs | src/v3/order_book.cpp:32-51 | From the first price on, a whole-cent price at most 512 cents below it or less than 512 above has the window level at that distance, and any other price an index from 2048 on. |
| LevelAddressing.OverflowLevelsAreFew | src/v3/order_book.cpp:42-50 | A book has at most two overflow levels for each price it was asked for. |
| LevelAddressing.LevelsAreForever | src/v3/order_book.cpp:31-51 | Over any run of requests a level stands for the same pair, and no other pair ever gets it. |
| LevelLists.LinkAppends | src/v3/order_book.cpp:53-67 | Linking appends at the tail: links stay mutual inverses, the ends are the ends, the slot names its level, count and total follow. |
| LevelLists.UnlinkRemoves | src/v3/order_book.cpp:85-97 | Unlinking takes one order from any position; the others keep their order, links, ends, count and total. |
| LevelLists.ReduceKeepsLinks | src/v3/order_book.cpp:164-165 | A partial fill lowers an order and its level's total alike and touches no link. |
| BookSpec.SweepBookAt | src/v1/order_book.cpp:20-52 | An effect on a live order acts at its place in its queue and leaves every other order and queue as it is. |
| BookSpec.ApplyKeeps | src/v1/order_book.cpp:13-67 | Every message keeps references unique and queues non-empty. |
| BookSpec.JoinKeeps | src/v1/order_book.cpp:13-18 | A joined order is live on its side and adds exactly its reference. |
| BookSpec.FillLeaves | src/v1/order_book.cpp:20-31 | A covered fill leaves the order in its place with the shares that remain, or takes it out when none do, under either arithmetic. |
| BookSpec.FillsAgreeIffCovered | src/v3/order_book.cpp:158-166 | The wrapping fill and the capped fill give the same book if and only if the open shares cover the fill. |
| BookSpec.MessagesAgreeIffCovered | src/v1/order_book.cpp:13-67 | On any message the wrapping and the capped fill arithmetic give the same book if and only if the message is no over-fill. |
| BookSpec.OverfillDiverges | src/v3/order_book.cpp:158-161 | A fill of 101 shares on an order of 100 leaves 2^32 - 1 shares under the wrapping arithmetic and no order under the capped one. |
| BookSpec.TopIsUnique | src/v1/order_book.cpp:69-72 | A book has at most one best bid and ask. |
| BookSpec.TopIs | src/v1/order_book.cpp:69-72 | The top is the greatest bid price with the least ask price, or none exactly when a side has no price. |
| BookSpec.TopExists | src/v1/order_book.cpp:69-72 | Every book has a best bid and ask, or none. |
| BaselineBook.IndexedIsWellFormed | include/v1/order_book.hpp:30-40 | With a consistent locator index, references are unique and the live ones are exactly the index's keys. |
| BaselineBook.SpliceKeepsIndex | src/v1/order_book.cpp:4-11 | Changing or erasing one list node keeps every other locator valid. |
| BaselineBook.SpliceIsSweep | src/v1/order_book.cpp:20-52 | Changing or erasing the located node is the effect on its reference in the book. |
| BaselineBook.AppendKeepsIndex | src/v1/order_book.cpp:13-18 | A new node and its locator keep the index consistent. |
| BaselineBook.OrderBook.constructor | include/v1/order_book.hpp:19-40 | A new book has no orders. |
| BaselineBook.OrderBook.RemoveLocator | src/v1/order_book.cpp:4-11 | The located node leaves its list, and an emptied level leaves the map. |
| BaselineBook.OrderBook.AddOrder | src/v1/order_book.cpp:13-18 | The order joins the tail of its queue and nothing else changes. |
| BaselineBook.OrderBook.ExecuteOrder | src/v1/order_book.cpp:20-31 | The order loses the shares modulo 2^32 in place, and leaves when none remain; unknown references change nothing. |
| BaselineBook.OrderBook.CancelOrder | src/v1/order_book.cpp:33-44 | As an execution, on the cancelled shares. |
| BaselineBook.OrderBook.DeleteOrder | src/v1/order_book.cpp:46-52 | The order leaves; all others keep their place. |
| BaselineBook.OrderBook.ReplaceOrder | src/v1/order_book.cpp:54-67 | The order leaves and its replacement joins the tail of the new price's queue on the same side. |
| BaselineBook.OrderBook.BestBidAsk | src/v1/order_book.cpp:69-72 | The highest live bid and lowest live ask, or none exactly when a side is empty. |
| BookImage.ListsAreDisjoint | src/v3/order_book.cpp:53-97 | No pool slot is at two places of a book's level lists. |
| BookImage.WidenedOk | src/v3/order_book.cpp:31-51 | Asking for a level keeps the book invariant. |
| BookImage.LinkedOk | src/v3/order_book.cpp:53-83 | Linking keeps the whole book invariant: lists, ownership, bitmap and both cached best indices. |
| BookImage.UnlinkedOk | src/v3/order_book.cpp:85-106 | Unlinking with its rescans keeps the whole book invariant. |
| BookImage.UnlinkedCaches | src/v3/order_book.cpp:99-105 | After an unlink the cached bid and ask are again the best non-empty window levels, though only a cache that pointed at the emptied level is rescanned. |
| BookImage.UnlinkedBits | src/v3/order_book.cpp:99-102 | After an unlink a bit is set exactly when its level has orders. |
| BookImage.ReducedOk | src/v3/order_book.cpp:163-166 | A partial fill keeps the whole book invariant. |
| BookImage.UntouchedOk | src/v3/order_book.cpp:146-206 | A book's invariant survives whatever other books do to slots of their own. |
| BookImageView.ViewIsWellFormed | src/v3/order_book.cpp:146-206 | A consistent array book denotes a book with unique references. |
| BookImageView.WidenedView | src/v3/order_book.cpp:31-51 | Creating a level changes no queue. |
| BookImageView.LinkedView | src/v3/order_book.cpp:53-83 | Linking a slot at a pair's level is joining its order to that queue. |
| BookImageView.UnlinkedView | src/v3/order_book.cpp:85-106 | Unlinking a slot is the removal of its order from the book. |
| BookImageView.ReducedView | src/v3/order_book.cpp:163-166 | A partial fill in the pool is the partial fill of that order in the book. |
| BookImageView.UntouchedView | README.md:221-223 | A book denotes the same queues after other books changed slots of their own. |
| BookImageView.ViewRefs | include/v3/object_pool.hpp:9-14 | The references a book denotes are exactly those of its live slots, although no slot stores one. |
| TopOfBook.WindowBid | src/v3/order_book.cpp:211-214 | The cached index reads back as the highest live bid among window prices. |
| TopOfBook.WindowAsk | src/v3/order_book.cpp:225-228 | The cached index reads back as the lowest live ask among window prices. |
| TopOfBook.OverflowInView | src/v3/order_book.cpp:215-221 | An overflow price has live orders exactly when its level has a head, emptied levels included. |
| ArrayBook.OrderBook.constructor | src/v3/order_book.cpp:4-8 | A new book has 2048 empty levels, no orders and a consistent state. |
| ArrayBook.OrderBook.SideOf | src/v3/order_book.cpp:11-15 | The side an index stands for, up to bid or not. |
| ArrayBook.OrderBook.PriceOf | src/v3/order_book.cpp:17-29 | The price an index stands for, in 32-bit arithmetic. |
| ArrayBook.OrderBook.LevelFor | src/v3/order_book.cpp:31-51 | Returns the level of the pair, creating at most one overflow level, for the price asked. |
| ArrayBook.OrderBook.LinkOrder | src/v3/order_book.cpp:53-83 | The new links, level, bitmap and caches are exactly those of appending the slot. |
| ArrayBook.OrderBook.UnlinkOrder | src/v3/order_book.cpp:85-106 | The new links, level, bitmap and caches are exactly those of taking the slot out. |
| ArrayBook.OrderBook.LevelEmptied | src/v3/order_book.cpp:99-143 | Only the emptied level's bit is cleared, and only a cache that pointed at it moves, to the nearest level with orders. |
| ArrayBook.OrderBook.AddOrder | src/v3/order_book.cpp:146-152 | The order joins its queue if and only if a slot is free, and the table knows it if and only if it is also below half load; if every order was known, all are if and only if no slot was taken or there was room; only this book's slots change. |
| ArrayBook.OrderBook.Reduce | src/v3/order_book.cpp:154-167 | A known order loses the shares in place, or leaves when nothing would remain; an unknown one changes nothing; the table forgets the reference exactly when the order is gone. |
| ArrayBook.OrderBook.TakeShares | src/v3/order_book.cpp:163-166 | A partial fill is the capped fill of that order in the book, which stays live. |
| ArrayBook.OrderBook.ExecuteOrder | src/v3/order_book.cpp:154-167 | The capped fill of an execution, in the book's terms. |
| ArrayBook.OrderBook.CancelOrder | src/v3/order_book.cpp:169-182 | The capped fill of a cancellation, in the book's terms. |
| ArrayBook.OrderBook.DeleteOrder | src/v3/order_book.cpp:184-190 | A known order leaves its queue; only this book's slots change. |
| ArrayBook.OrderBook.ReplaceOrder | src/v3/order_book.cpp:192-206 | A known order is never lost, whatever the pool and table hold: its slot is reused, the side kept, the new queue joined at the tail, the free list unchanged, the new reference entered. |
| ArrayBook.OrderBook.BestBid | src/v3/order_book.cpp:209-221 | The highest price over all live bids, window and overflow, or none exactly when there is no live bid. |
| ArrayBook.OrderBook.BestAsk | src/v3/order_book.cpp:223-235 | The lowest price over all live asks, or none exactly when there is no live ask. |
| ArrayBook.OrderBook.BestBidAsk | src/v3/order_book.cpp:208-239 | The best bid and ask, or none exactly when a side has no live order. |
| MarketSpec.StepsAgree | src/v3/order_book.cpp:146-206 | On admissible messages the two generations' fill arithmetic gives the same market. |
| MarketSpec.FeedableIs | README.md:221-223 | What the feed promises of a message, order by order: references below 2^64 - 1, an added one live nowhere, a replacement's live nowhere but under itself, any other of the message's own symbol or of none. |
| MarketSpec.StepKeeps | src/v1/order_book.cpp:13-67 | A message with fresh references keeps references unique across the whole market. |
| MarketSpec.RunKeeps | src/v1/order_book.cpp:13-67 | Over every admissible run references stay unique market-wide and the two arithmetics give one market. |
| MarketSpec.FeedKeeps | src/v1/order_book.cpp:13-67 | The same along every feed with fresh references, whatever its fills. |
| ArraySpec.FillUnmovedIff | src/v1/order_book.cpp:20-31 | A fill in v1 leaves the book as it is if and only if it is of no shares and the order has some. |
| ArraySpec.ReplaceUnmovedIff | src/v1/order_book.cpp:54-67 | A replacement leaves the book as it is if and only if it is of the last order of its queue by itself. |
| ArraySpec.UnmovedIff | src/v1/order_book.cpp:20-67 | Which messages about a live order change nothing in v1; a deletion never does. |
| ArraySpec.StepsAgreeIff | src/v3/order_book.cpp:146-206 | What v3 makes of a message, with or without a free slot and whether or not the table knows the order, is what v1 makes of it if and only if the exact condition holds. |
| ArraySpec.HeldStepsAgreeIff | src/v3/order_book.cpp:146-206 | The same for all symbols over one pool and one table. |
| ArraySpec.AgreeThroughoutIff | src/v3/order_book.cpp:146-206 | Over any feed with fresh references the generations hold the same books after every message if and only if every message meets the condition in the state it finds. |
| ArraySpec.RefsAfter | src/v3/order_book.cpp:146-206 | If the table knows all references of a book, it knows all of them after a message that finds room. |
| ArraySpec.AdmissibleAgrees | src/v3/order_book.cpp:146-206 | An admissible message, with every order known, meets the condition and leaves every order known. |
| ArraySpec.AdmissibleIff | src/v3/order_book.cpp:146-206 | With every order known, a message with fresh references keeps the promises if and only if the generations agree on it and every order is known afterwards. |
| ArraySpec.AdmissibleRunAgrees | src/v3/order_book.cpp:146-206 | Along an admissible feed the table knows every live order and every message meets the condition. |
| ArrayMarkets.Dispatch | src/v3/receiver.cpp:172-199 | In any state of the pool and the table, the handler for a message is that message's step on its book and on the references known, writing only that book's slots. |
| ArrayMarkets.OtherBook | README.md:221-223 | A step of one book leaves another book's state consistent and its meaning unchanged. |
| ArrayMarkets.SlotIsFreeIff | include/v3/object_pool.hpp:26-27 | A slot is free if and only if fewer references are live than there are slots. |
| ArrayMarkets.Market.constructor | tests/v3/test_v1_v3_equivalence.cpp:30-32 | A new market has no books, an empty pool and an empty table. |
| ArrayMarkets.Market.Process | src/v3/order_book.cpp:146-206 | Whatever its fill and whether or not there is room, one message with fresh references is one step of what the market holds, its books and the references known; every other symbol's lists, aggregates and caches stay exactly as they were. |
| ArrayMarkets.Market.ReadyFor | src/v3/order_book.cpp:146-206 | What the feed promises about references is what the handlers need. |
| ArrayMarkets.Market.SlotIff | include/v3/object_pool.hpp:26-27 | The pool has a slot if and only if the market holds fewer orders than slots, and the table counts the references it knows. |
| ArrayMarkets.Market.ViewIsOk | README.md:221-223 | In every valid state no reference is live in two places of the market. |
| ArrayMarkets.Market.BestBidAsk | src/v3/order_book.cpp:208-239 | A symbol's best bid and ask in the market's meaning. |
| ArrayMarkets.Market.RefsAreLive | README.md:221-223 | The references live in the market are exactly those of the live pool slots. |
| ArrayMarkets.Market.EverySlotIsFreeOrListed | include/v3/object_pool.hpp:19-36 | In every valid state the free list has no repetition, and a slot is on it exactly when no level list of any book holds it. |
| ArrayMarkets.Market.ListedOnce | src/v3/order_book.cpp:53-97 | No slot is in two places of any books' level lists. |
| ArrayMarkets.Market.TableHoldsLiveSlots | include/v3/ref_table.hpp:13-45 | The table's values are live slots, injective, each carrying the reference it is stored under; its size is the number of references known. |
| ArrayMarkets.Market.FullTableHoldsLiveSlots | include/v3/ref_table.hpp:13-45 | While every order is known, the table's values are exactly the live slots and its size is the live order count. |
| ArrayMarkets.Market.LevelAggregates | src/v3/order_book.cpp:66-67 | A level's count is the length of its list and its total the list's shares modulo 2^32. |
| BaselineMarkets.Dispatch | src/v1/receiver.cpp:103-130 | The handler for a message is that message's step on its book. |
| BaselineMarkets.Market.Process | src/v1/receiver.cpp:103-130 | One message is one step of the market's meaning; every other symbol's book is the same object with the same fields. |
| Equivalence.Compare | tests/v3/test_v1_v3_equivalence.cpp:87-105 | One message steps both markets, and the answer is true if and only if the two books of its symbol have a common top. |
| Equivalence.StepBoth | src/v3/order_book.cpp:146-206 | From equal books of the two generations, in any state of the pool and the table, one message leaves equal books if and only if the exact condition holds; from a state with every order known, all are known again if and only if an add that takes a slot meets the table below half load. |
| Equivalence.Replay | tests/v3/test_v1_v3_equivalence.cpp:29-109 | For every admissible feed both markets end with the same queues at every symbol, side and price, the table knows every live order, and the count of mismatching tops of book is zero. |
| Equivalence.ReplayFeed | tests/v3/test_v1_v3_equivalence.cpp:29-109 | For every feed whose references are fresh to both generations, however small the pool and the table, the v1 market ends with the books of the feed and the v3 market with what the array specification says, and the mismatches are exactly the messages after which the two books of the symbol have no common top; there is none if every message meets the condition. |
| Divergences.ExhaustedPoolDiverges | src/v3/order_book.cpp:147-148 | Two adds with a pool of one slot: the v1 market holds both orders, the v3 market the first alone. |
| Divergences.ExhaustedPoolMismatches | tests/v3/test_v1_v3_equivalence.cpp:87-105 | A bid and an ask with a pool of one slot: exactly one of the two comparisons mismatches. |
| Divergences.HalfLoadDiverges | include/v3/ref_table.hpp:14 | Two adds and the deletion of the second with a table of two slots and a pool of eight: equal books up to the deletion, which only v1 carries out. |
| GapTracking.CarveParts | src/v3/receiver.cpp:140-154 | The four cases of gap surgery leave exactly the parts before and after the packet. |
| GapTracking.CarveRemoves | src/v3/receiver.cpp:137-155 | Recovering a packet removes exactly its numbers from the pending ones and keeps gaps disjoint and non-empty. |
| GapTracking.AheadAddsGap | src/v3/receiver.cpp:125-129 | A packet ahead opens exactly the gap in between. |
| GapTracking.StepKeepsPartition | src/v3/receiver.cpp:118-161 | One packet keeps taken and pending numbers a partition, and what it brings was not taken before. |
| GapTracking.LateAcceptedIff | src/v3/receiver.cpp:130-161 | A packet behind the expected number is accepted if and only if it lies inside one pending gap. |
| GapTracking.BoundsAre | src/v3/receiver.cpp:114-127 | What is assumed of a packet: numbers from one to 2^64 - 1, and a jump of at most 65535. |
| GapTracking.JumpFitsIff | src/v3/receiver.cpp:127 | A packet ahead keeps the partition if and only if the jump is below 2^16. |
| GapTracking.ExactlyOnce | src/v3/receiver.cpp:118-161 | After any packets, the accepted numbers and the pending gaps partition first to expected, and no number was accepted twice. |
| GapTracking.StepBounds | src/v3/receiver.cpp:118-161 | Each gap stays followed by a taken number if and only if the packet is neither empty and ahead nor empty and strictly inside a gap. |
| GapTracking.RecoverableThroughoutIff | README.md:230-233 | Along a run, everything missed stays recoverable after every packet if and only if no packet after the first is empty and ahead or empty and strictly inside a gap. |
| GapTracking.StepSeparates | src/v3/receiver.cpp:130-156 | A packet keeps the gaps maximal if and only if it neither is empty and strictly inside a gap nor runs ahead while a gap ends at the expected number. |
| GapTracking.AcceptsIffMissed | README.md:230-233 | With every gap followed by a taken number, a non-empty packet is accepted if and only if none of its numbers was taken before. |
| GapTracking.RecoversAllIff | src/v3/receiver.cpp:130-161 | In a state every non-empty packet whose numbers are all missing is accepted if and only if each gap is followed by a taken number. |
| GapTracking.RecoveryAfterRunIff | README.md:230-233 | The same after every run of packets. |
| GapTracking.CompleteRecovery | README.md:230-233 | Over every run of non-empty packets the gaps are the maximal missing runs, and a packet is accepted if and only if it shares no number with earlier accepted ones. |
| GapTracking.EmptyPacketLosesAnother | src/v3/receiver.cpp:150-154 | A concrete run in which an empty packet inside a gap makes a later missing packet count as a duplicate. |
| GapTracking.EmptyPacketAheadLosesAnother | src/v3/receiver.cpp:125-129 | The same for an empty packet ahead of the expected number. |
| GapTracking.LongJumpLosesNumbers | src/v3/receiver.cpp:127 | A jump of 2^16 is recorded as a gap of length zero, and the missing numbers are neither taken nor pending. |
| GapOrder.TakenIsCarried | src/v3/receiver.cpp:118-161 | With non-overlapping packets, the numbers accepted are exactly those carried by some packet. |
| GapOrder.AcceptedOnFirstArrival | README.md:230-233 | A packet is accepted the first time it arrives and never again. |
| GapOrder.GapsAreCanonical | src/v3/receiver.cpp:118-161 | Maximal gaps are determined by the numbers they cover. |
| GapOrder.OrderInsensitive | src/v3/receiver.cpp:118-161 | Two arrivals of the same packets, repeated and reordered in any way, end with the same expected number and the same gaps. |
| GapOrder.ContiguousIsComplete | src/v3/receiver.cpp:211 | If the packets leave no number out, no gap remains and nothing counts as lost. |
| GapOrder.CarveTotal | src/v3/receiver.cpp:139-154 | Recovering a packet lowers the count of missing numbers by exactly its message count. |
| GapOrder.SimpleDecision | src/v1/receiver.cpp:84-92 | v1 accepts a packet if and only if it is the first or not behind the expected number, and then expects the number after it. |
| GapOrder.TrackersInStep | src/v1/receiver.cpp:84-92 | Fed alike, v1 expects the same number and counts the same gaps as v2, accepts exactly the packets v2 accepts that are not behind the expected number, its lost is recovered plus still missing, and its duplicates are v2's plus the late recoveries. |
| GapCounts.CountersCount | src/v3/receiver.cpp:118-161 | Over a run the gap events are the packets ahead, the duplicates the packets refused, and recovered the number of sequence numbers taken late. |
| GapCounts.TotalIsMissing | src/v3/receiver.cpp:211 | The sum of the pending gaps is the number of sequence numbers from the first to the expected one that no accepted packet carried. |
| GapCounts.SimpleCountersCount | src/v1/receiver.cpp:84-92 | In v1 over the same run the gaps are the packets ahead, lost the numbers taken late plus those missing, and the duplicates the packets refused or taken late. |
| Receiver.GapReceiver.Track | src/v2/receiver.cpp:109-152 | The in-place gap surgery is one step of the gap tracker, with its decision, and each counter counts its own kind of packet. |
| Receiver.GapReceiver.TrulyLost | src/v2/receiver.cpp:202 | The sum of the pending gap lengths. |
| Receiver.Unpack | src/v3/receiver.cpp:163-202 | Yields the complete messages of the datagram and nothing of one that is cut short, up to the number announced. |
| Receiver.GapReceiver.OnDatagram | src/v3/receiver.cpp:112-203 | Short datagrams are ignored; otherwise the header is tracked and the messages are delivered exactly when accepted. |
| Receiver.SimpleReceiver.Track | src/v1/receiver.cpp:84-92 | Accepts exactly the packets not behind the expected number, moves on past them, and counts gaps, lost numbers and duplicates (with line 134). |
| Receiver.SimpleReceiver.OnDatagram | src/v1/receiver.cpp:78-134 | Short datagrams are ignored; otherwise the messages are delivered exactly when the packet is not behind the expected number. |
| Receiver.SentPacketsAreOrderly | src/common/replay_sender.cpp:52-93 | Packets as sent are non-empty and never share a sequence number, in whatever order they arrive. |
| Receiver.ReceiveAll | src/v3/receiver.cpp:112-203 | Packets repeated and reordered in any way deliver each packet's messages once, at its first arrival. |
| Receiver.AllArrivedIsComplete | src/v3/receiver.cpp:211 | Once every packet has arrived, no gap is left and nothing counts as lost. |
| Receiver.AllArrivedDelivers | src/v3/receiver.cpp:112-203 | Once every packet has arrived, repeated and reordered in any way, each message has been delivered exactly as often as it was sent. |
| Receiver.InOrderArrivals | src/v3/receiver.cpp:163-202 | Packets in order deliver the messages in order. |
| Receiver.Transmit | src/common/replay_sender.cpp:77-93 | From file to receiver, packets in order: exactly the file's messages in order, none lost. |
| Wire.ReadWriteBe | include/common/mold_udp64.hpp:10-18 | A number written big-endian in enough bytes reads back as itself. |
| Wire.ReadBePair | include/common/itch_messages.hpp:6-10 | Of two bytes the first counts 256-fold. |
| Wire.ReadBeJoin | include/common/itch_messages.hpp:6-30 | Bytes in front count for more by every byte behind them, at any width. |
| Wire.FrameLayout | src/common/replay_sender.cpp:87-88 | A frame is the length in two bytes, the higher first, and then the message. |
| Wire.FrameAtIs | src/common/itch_reader.cpp:33-45 | The frame at an offset is as long as 256 times its first byte plus its second says, and there is none when the bytes end before. |
| Wire.FrameIsRead | src/common/itch_reader.cpp:33-45 | A framed message is read back wherever it stands. |
| Wire.ParseJoined | src/v3/receiver.cpp:164-202 | Framed messages are unpacked as themselves, and no more of them than asked for. |
| Wire.ParseIsFrames | src/v3/receiver.cpp:164-202 | Unpacking yields the complete frames, up to the number asked for, and nothing else. |
| Wire.FramesArePrefix | src/common/itch_reader.cpp:33-45 | The messages read are those of the longest prefix of complete frames. |
| Wire.FramesJoined | src/common/itch_reader.cpp:33-45 | Framed messages followed by an incomplete frame are read back exactly. |
| Wire.PacketRoundTrip | src/common/replay_sender.cpp:55-60 | A packet reads back as the sequence number, count and messages it was made of. |
| Wire.PacketLayout | src/common/replay_sender.cpp:55-58 | A packet is ten bytes of session, eight of sequence number, two of message count, and from byte 20 on the message blocks. |
| Wire.HeaderFields | src/v3/receiver.cpp:114-115 | The sequence number and the count read from a header, the higher bytes first. |
| Sender.ItchFileReader.Next | src/common/itch_reader.cpp:33-45 | The frame at the offset and the offset after it, or no message and no move when it is incomplete. |
| Sender.ReplaySender.FlushPacket | src/common/replay_sender.cpp:52-72 | The packet sent carries the filled messages under the next sequence number, in at most 1400 bytes; an empty one is not sent. |
| Sender.ReplaySender.MakeRoom | src/common/replay_sender.cpp:79-81 | Afterwards the message fits, every earlier message is kept in order, and no packet was sent that had room for the message after it. |
| Sender.ReplaySender.Enqueue | src/common/replay_sender.cpp:76-92 | A message follows all earlier ones, and packing stays greedy. |
| Sender.ReplaySender.Run | src/common/replay_sender.cpp:77-93 | The packets carry exactly the file's messages in order, numbered consecutively from one, none empty or over 1400 bytes, and none having had room for the message that starts the next. |

## Left out

- Sockets, multicast, io_uring submission and completion, timeouts, file mapping,
  printing: arrivals are any sequence of datagrams, a file is a byte sequence.
- Pacing in the sender (`src/common/replay_sender.cpp:62-69`), benchmarks, cycle
  counters and memory layout: wall-clock and cache behaviour.
- Parsing the fields of each message type and choosing a handler by the type
  byte: straight-line reads at fixed offsets. Books start from parsed messages,
  so the theorems on bytes and those on books meet at the message.
- Message types other than add, execute, cancel, delete and replace: the program
  ignores them.
- The constants of the hash: every total hash is covered.
- Behaviour outside the feed assumptions, apart from the exact conditions above:
  reused references, a message that names another symbol, messages over 1378
  bytes. Sequence number zero is covered by the trackers' steps but not by the
  theorems about runs, which number from one.
- Wrap-around of 64-bit sequence numbers and counters: `seq + count` stays below
  2^64 and the counters are unbounded.
- The end-of-session and heartbeat meaning of message counts in MoldUDP64: the
  program treats every count as an ordinary count.
- `std::list` iterators are node numbers in a list of nodes, and walks over
  `std::map` are repeated queries for the least or greatest key left.
- The v1 and v2 unpack loops repeat that of v3 and are modelled once.
- Receiver.Transmit: covers a network that keeps packets in order; arrivals
  repeated and reordered are `Receiver.ReceiveAll` and `Receiver.AllArrivedIsComplete`.
- BaselineBook.OrderBook.AddOrder: does not cover a reference that is already
  live, which the feed never sends; the program would then lose the older locator.
- BaselineBook.OrderBook.ReplaceOrder: likewise for a new reference that another
  live order carries.
- ArrayBook.OrderBook.AddOrder: does not cover a reference that a live order
  already carries.
- ArrayBook.OrderBook.Reduce: does not cover a reference whose order rests in
  another symbol's book, which the feed never sends; v3 would then fill that order.
- ArrayBook.OrderBook.ExecuteOrder: likewise.
- ArrayBook.OrderBook.CancelOrder: likewise.
- ArrayBook.OrderBook.DeleteOrder: likewise.
- ArrayBook.OrderBook.ReplaceOrder: likewise, nor a new reference that another live
  order carries.
- BaselineMarkets.Dispatch: as the handlers of the v1 book.
- BaselineMarkets.Market.Process: as the handlers of the v1 book.
- Sender.ReplaySender.MakeRoom: does not cover messages over 1378 bytes, which do
  not fit the packet buffer the program writes them to.
- Sender.ReplaySender.Enqueue: likewise.
- Sender.ReplaySender.Run: likewise.
