# Verified model of the Go backend's stateful components

Dafny models of the parts of the backend that carry state machines and data structures, with proofs
about every input, every run and every reachable state. Each module follows one component. Where the
Go code changes objects in place, the module has a class whose methods are proved equal to functions
on plain values; the lemmas about whole runs are stated on those functions. `dafny verify
dfyconfig.toml` checks the whole project.

## What is modelled

**Stock ledger (`StockTables`, `StockLedger`, `StockHistory`, `OrderFates`, `StockCodes`,
`GoodserService`).** Products carry a quantity and a reserved quantity; orders lock stock when they are
created and give it back or ship it through confirm, cancel, cancel-reserve and
convert-reserve-to-outbound. Each service call is one transaction over the tables; an error restores
them. After every run, failed calls included, what is reserved is exactly what the open orders ask for,
repeated products counted together; every order is settled at most once; stock on hand is what was
received minus what `ConfirmOutbound` shipped; and an order's status tells whether it was confirmed or
cancelled. The callers' part of the contract is explicit: quantities are not negative, orders are
created as pending or reserved. Products named by open orders may be deleted: the updates of a missing
row do nothing, as in SQL.

**Product codes (`ProductCode`, `StockCodes`).** A code identifies its (main, sub, sequence, status)
tuple as long as zones hold no dash; among all tuples exactly when moreover the number is above -1000
and the status does not read like the end of a code. Two calls can put two products under one code: a
product created by hand under a stored code, and a batch that repeats a code nobody has stored yet,
because a batch looks products up outside its own transaction. `StepKeepsCodesIff` says that these are
the only ones.

**Sequence allocator (`SeqAllocator`, `ZoneNumbers`).** A counter per zone and a table of recycled
numbers. Held and recycled numbers partition 1..current_max as long as only issued numbers are given
back, and each allocation hands out the smallest number nobody holds. `ZoneNumbers` runs both tables
together and says when a number handed out is carried by no stored product.

**Rate limiters (`SlidingWindow`, `FixedWindow`).** The in-memory sliding window with its cleanup
goroutine, and the Redis fixed window. Time is a parameter that does not go back.

**Two-level cache (`L1Cache`, `Codecs`, `TwoLevelCache`, `CacheContents`, `CacheRecency`,
`MultiLevelCache`).** The L1 map with clock stamps refines a recency list; the two levels together
answer a miss or the last value written; the placeholder for "no value" is never confused with encoded
data. `CacheContents` says what has to be there: every write reaches Redis and is answered until it
expires, locks stand apart, and the counters count. `CacheRecency` carries the recency list over to the
whole cache.

**Audit log (`AuditLog`).** A query through four inverted indexes equals a scan of the log, and that
holds exactly the entries whose fields and times were asked for.

**Circuit breakers (`Breakers`).** The database breaker and the network breaker behave alike exactly
when the network breaker's success threshold is at most one. Its default is two. For overlapping calls
they then do so exactly as long as no outcome comes after the breaker opened.

**Crypto (`Hex`, `Decimal`, `KeyRotation`, `Shards`).** Versioned keys over a chain of rotations, with
real printing and parsing of the `v%d:` prefix and hexadecimal as in section 8 of RFC 4648; splitting a
payload into numbered shards and merging it, with 64-bit overflow.

**Migration (`SchemaMigrator`, `Transfer`).** Versioned schema migrations over any number of runs, where
the directory, every read of the migration table, the SQL and the records may fail, and reads may break
off unnoticed; and the paged copy of tables with refused queries, broken page reads and failing inserts.

**WebSocket hub (`Hub`).** Rooms list clients and clients list rooms; the two indexes stay inverse over
every run, and they answer what the history of joins and leaves says.

## Where the code departs from what it promises

Each of these is kept as the code has it, with the exact condition under which the promise holds.

- Every zone that contains a dash, every sequence number of -1000 or less, and every status that reads
  like the end of a code makes a tuple share its code with another, and nothing else does
  (`CodeIdentifiesIff`, `ShortStatusCollides`).
- A batch with a repeated new code creates two products (`BatchEqualsSinglesIff`).
- An inbound item without a quantity counts 0 for a new product and 1 for a stored one
  (`StockHistory.Receipt`, used by `StockIsConserved`).
- Deleting a product is not part of the transaction that recycles its number (`DeleteProductRow`).
- Recycling a number that was never issued breaks the allocator (`RecycleKeepsPartitionIff`,
  `UnissuedRecycleCollides`). Recycling a number that a second product still carries hands it out
  again (`FreshForeverIff`, `SharedNumberIsHandedOut`). A pop that fails for any reason advances the
  counter (`NextIsSmallestFree`).
- A failing EXPIRE blocks an ip for good once the key it left without expiry is used up (`StuckIff`,
  `RefusedAlwaysIff`, `LostExpiryBlocks`). EXPIRE counts whole seconds, so a configured window that is
  longer than a second and no whole number of seconds lets more through (`WindowHoldsIff`).
- A full L1 evicts even when it overwrites a key, and an empty key is never evicted
  (`EvictDropsLastIff`, `SetKeepsSizeIff`, `EmptyKeyOutgrows`).
- A `SetMany` in which some items encode and some do not may leave L1 with values Redis never got,
  depending on the order in which Go ranges over the map (`SetManyCoherentIff`).
- A page offset at or past the match count starts over from the first entry (`OffsetSkipsIff`).
- The default success threshold separates the two breakers (`BisimilarIff`), and so does every outcome
  reported while open (`OverlappingCallsAgreeIff`).
- Dropping a stored key version lets its number be taken over (`DroppedVersionIsReused`, `ReadsIff`).
- An empty payload, or one whose size plus the shard size overflows, is split into nothing and cannot
  be merged (`RoundTripIff`).
- SelectAll never asks a result set for its error, so a page read that breaks off looks like the last
  page: a copy reports success with part of a table (`SuccessIsWholeIff`, `BrokenReadPasses`). With
  pgx the error of a query may itself arrive that way, as a page without rows.
- A Postgres source lists its tables the same way, so a listing that breaks off skips tables without
  notice (`UnnamedJobCoversIff`), and it reports no error for the columns of a missing table, so a
  misspelt name can empty the destination table first (`MissingTableKeepsRowsIff`).
- The same read hides recorded migrations, which are then executed again (`CutReadsCanRerunIff`,
  `RecordedNeverRerunIff`). On Postgres every version reads as 0, so every run executes the first
  migration again (`PostgresRerun`, `WholeReadsAreSafeIff`).
- Two migration files with the same version make a run fail without any fault
  (`FaultlessRunSucceedsIff`).
- A client that joins a room without being registered makes the hub inconsistent
  (`JoinOfStranger`, `JoinRoom`).

## Model

| member | source | states |
|---|---|---|
| StockTables.FindByCode | zzz/goodser/repository.go:151-160 | The row found matches inventory and code and no earlier row does; none is found only if no row matches |
| StockLedger.ApplyMovesTotals | zzz/goodser/service.go:368-372 | Moving an order item by item, one product possibly many times, moves each product once by its total demand |
| StockLedger.LockChecksTotals | zzz/goodser/service.go:325-336 | The item-by-item checks pass if and only if every product exists and its total demand fits its free stock; then exactly the demand is reserved |
| StockLedger.OpenDemandAfterUpdate | zzz/goodser/repository.go:709-714 | Rewriting one order changes the open demand by the difference of the two claims |
| StockLedger.CreateKeepsBalanceIff | zzz/goodser/service.go:317-345 | Creating an order keeps reserved equal to open demand if and only if it is refused, created open, or asks for nothing |
| StockLedger.SettleKeepsInv | zzz/goodser/service.go:348-419 | Shipping or freeing an open order and closing it keeps the ledger invariant |
| StockLedger.ConvertKeepsInv | zzz/goodser/service.go:552-616 | Converting a reserve with any non-negative item list keeps the invariant, refused or not |
| StockLedger.ReceiveAllKeepsInv | zzz/goodser/service.go:216-276 | A batch keeps the invariant whatever tables its lookups saw |
| StockLedger.StepKeepsInv | zzz/goodser/service.go:97-616 | Each of the ten calls keeps the invariant |
| StockLedger.LedgerInvariant | zzz/goodser/service.go:317-616 | After every run each product's reserved quantity is the demand of the open orders, with multiplicity, and 0 <= reserved <= quantity |
| StockHistory.StepSettles | zzz/goodser/service.go:348-419 | A call makes an order final if and only if it settles it; a final order cannot be settled; items never change |
| StockHistory.SettledAtMostOnce | zzz/goodser/service.go:348-583 | Over any run the settling calls that succeed on an order number one if the run closed it and none otherwise |
| StockHistory.StepMovesStock | zzz/goodser/repository.go:626-638 | One call changes a product's quantity by what it receives minus what it ships |
| StockHistory.StockIsConserved | zzz/goodser/service.go:150-616 | After every run each quantity is the initial one plus everything received minus the items of confirmed orders; conversions ship nothing |
| StockHistory.LockNeverShort | zzz/goodser/service.go:599-611 | A list whose totals fit is never refused for lack of stock |
| StockHistory.ConvertWithOwnItems | zzz/goodser/service.go:552-616 | Converting a reserve with its own items succeeds if and only if its products exist, never fails for stock, leaves all products as they were and hands the items to a new pending order |
| OrderFates.StepOnOrder | zzz/goodser/service.go:348-616 | Every call leaves every order as it was but for the status: confirmed if the call confirmed or converted it, cancelled if it cancelled or unreserved it, unchanged otherwise |
| OrderFates.StatusTellsSettlement | zzz/goodser/service.go:317-616 | Over any run an order reads confirmed if and only if a call of the run confirmed or converted it, cancelled if and only if one cancelled or unreserved it, and stands otherwise |
| OrderFates.StepAddsOrders | zzz/goodser/repository.go:651-690 | The orders a call adds: the one requested, outbound and pending by default; the outbound order of a conversion, which names its reserve; none when the call fails |
| OrderFates.SettlingAnswers | zzz/goodser/service.go:348-549 | Any standing order can be confirmed or cancelled and only a standing reserve order taken back; a missing order and one in the wrong status or of the wrong kind are told apart |
| OrderFates.ConvertAnswers | zzz/goodser/service.go:552-616 | A conversion is refused unless the order is a standing reserve; then it succeeds with the new order's id if and only if the reserve's own stock, given back, makes room for the totals of the new items, and otherwise fails on the first item that does not fit |
| OrderFates.CreateAnswers | zzz/goodser/service.go:317-345 | Creating an order succeeds if and only if its totals fit; otherwise the error is that of the first item that does not fit together with those before it |
| OrderFates.StepOnRow | zzz/goodser/service.go:97-616 | A product row goes only by its own removal, and no other call changes more of it than its two quantities |
| OrderFates.RowAnswers | zzz/goodser/service.go:97-309 | An import or removal fails if and only if a product it names is missing; a batch counts its items, a new product gets the next row |
| StockCodes.BatchEqualsSinglesIff | zzz/goodser/service.go:216-276 | A batch equals its items received one by one if and only if it repeats no code that is not stored |
| StockCodes.InsertKeepsCodesIff | zzz/goodser/repository.go:577-624 | Inserting a product keeps codes unique if and only if no stored product has its code |
| StockCodes.SinglesKeepCodesUnique | zzz/goodser/service.go:150-213 | Receiving items one by one keeps at most one product per code and inventory |
| StockCodes.InboundFindsTuple | zzz/goodser/service.go:150-213 | An inbound item changes the row holding its (main, sub, sequence, status) tuple if there is one and otherwise creates it; no other row changes |
| StockCodes.BatchInsertsRows | zzz/goodser/service.go:224-250 | A batch inserts one row of its own for every item whose code is not stored, in order |
| StockCodes.BatchKeepsCodesIff | zzz/goodser/service.go:216-276 | A batch keeps codes unique if and only if it repeats no new code |
| StockCodes.StepKeepsCodesIff | zzz/goodser/service.go:97-616 | Of all calls only a hand-made product under a stored code and a batch repeating a new code break uniqueness, and those always do |
| StockCodes.CodesStayUnique | zzz/goodser/service.go:97-616 | Over any run without those two calls every inventory has at most one product per code |
| ProductCode.SplitAtDash | zzz/goodser/service.go:157 | A dash-free head is determined by the text up to the first dash |
| ProductCode.SplitAtNumber | zzz/goodser/service.go:157 | A zero-padded number of either sign followed by a dash reads back unambiguously |
| ProductCode.CodeIdentity | zzz/goodser/repository.go:587 | Codes are equal if and only if the (main, sub, sequence, status) tuples are, for dash-free zones |
| ProductCode.DashedMainCollides | zzz/goodser/service.go:157 | A dash inside a zone can be moved: (x-y, z) and (x, y-z) share their code, so every tuple with a dashed zone shares its code with another |
| ProductCode.LongNegativeCollides | zzz/goodser/repository.go:587 | A sequence number of -1000 or less gives its sign to the sub zone and shares its code with a positive one |
| ProductCode.DashedStatusCollides | zzz/goodser/repository.go:587 | Every status that starts with 0000 and a dash, or contains a printed number, 0000 and a further text, at its start or after a dash, shares its code with a tuple of another sub zone |
| ProductCode.ShortStatusCollides | zzz/goodser/service.go:157 | (A, B, 1, 0000-B) and (A, B-0001, 0, B) share their code |
| ProductCode.CodeIdentifiesIff | zzz/goodser/repository.go:587 | A code belongs to no other tuple of any kind if and only if both zones are dash-free, the sequence number is above -1000, and the status does not read like the end of a code |
| ProductCode.CodeOfSeven | zzz/goodser/service.go:157 | The code of (A, B, 7, N) reads A-B-0007-0000-N |
| GoodserService.Repository.GetProductForUpdateTx | zzz/goodser/repository.go:640-649 | The row of the id, or none |
| GoodserService.Repository.UpdateProductReservedTx | zzz/goodser/repository.go:633-638 | Adds both deltas to one row and changes no other; a missing row changes nothing |
| GoodserService.Repository.AddProductQuantityTx | zzz/goodser/repository.go:626-631 | Adds to the quantity of one row |
| GoodserService.Repository.CreateProductTx | zzz/goodser/repository.go:577-624 | Appends a row with the code of its fields and nothing reserved |
| GoodserService.Repository.CreateOutboundOrderTx | zzz/goodser/repository.go:651-690 | Appends an order, outbound and pending by default |
| GoodserService.Repository.UpdateOutboundOrderStatusTx | zzz/goodser/repository.go:709-714 | Rewrites the status of one order |
| GoodserService.Repository.FindProductByCode | zzz/goodser/repository.go:151-160 | The scan returns the first committed row with the inventory and code |
| GoodserService.Service.LockItems | zzz/goodser/service.go:325-336 | The loop reserves every item or reports the first refusal |
| GoodserService.Service.MoveItems | zzz/goodser/service.go:368-372 | The loop moves every item without checks |
| GoodserService.Service.CheckOpen | zzz/goodser/service.go:355-361 | Missing orders, wrong kinds and closed orders are refused |
| GoodserService.Service.CreateOutboundOrder | zzz/goodser/service.go:317-345 | New tables and answer; a refusal restores the tables; the ledger invariant is kept |
| GoodserService.Service.ConfirmOutboundOrder | zzz/goodser/service.go:348-382 | Ships the items and confirms, or changes nothing; keeps the invariant |
| GoodserService.Service.CancelOutboundOrder | zzz/goodser/service.go:385-419 | Frees the items and cancels, or changes nothing; keeps the invariant |
| GoodserService.Service.CancelReserveOrder | zzz/goodser/service.go:512-549 | The same, for reserve orders only |
| GoodserService.Service.ReserveToOutboundOrder | zzz/goodser/service.go:552-616 | Frees, confirms, creates and locks, or restores the tables; keeps the invariant |
| GoodserService.Service.ReceiveItem | zzz/goodser/service.go:225-269 | Looks up in the committed tables and writes to the transaction's |
| GoodserService.Service.InboundSingleProduct | zzz/goodser/service.go:150-213 | One item, looked up in the tables the call started from |
| GoodserService.Service.InboundBatchProducts | zzz/goodser/service.go:216-276 | All items, each looked up in the tables the call started from |
| GoodserService.Service.InboundSearchImportItems | zzz/goodser/service.go:279-309 | Adds every item by id, or restores the tables at the first missing product |
| GoodserService.Service.DeleteProductRow | zzz/goodser/service.go:126-147 | The row goes in any case; its number is recycled in its own zone only, and stays held when that fails |
| SeqAllocator.AllocateFromPartition | zzz/goodser/service.go:74-94 | From a partition of 1..max an allocation keeps the partition, and hands out the smallest free number if and only if the pop does not fail on a pool with numbers |
| SeqAllocator.RecycleKeepsPartitionIff | zzz/goodser/repository.go:735-741 | Giving a number back keeps the partition if and only if the counter has reached it |
| SeqAllocator.AllocatorInvariant | zzz/goodser/service.go:74-147 | Over every run held and recycled numbers partition 1..current_max; current_max is at least the largest number of numbers ever held at once, and equal to it if and only if at some moment since the counter last moved no number was waiting to be reused |
| SeqAllocator.MaxIsPeakWithoutFailures | zzz/goodser/service.go:74-147 | When no pop ever failed, current_max is the largest number of numbers ever held at once |
| SeqAllocator.NextIsSmallestFree | zzz/goodser/service.go:74-94 | After every run the next allocation is the smallest positive number not held, if and only if its pop does not fail on a pool with numbers |
| SeqAllocator.UnissuedRecycleCollides | zzz/goodser/service.go:126-147 | A run that recycles a number never issued hands out a held number |
| SeqAllocator.SeqTables.PopRecycledSeq | zzz/goodser/repository.go:196-210 | The least recycled number of the zone is returned and removed with all its rows; other zones are untouched |
| SeqAllocator.SeqTables.IncrementSeqCounter | zzz/goodser/repository.go:212-227 | The zone's counter starts at 1 or grows by 1 |
| SeqAllocator.SeqTables.AddRecycledSeqTx | zzz/goodser/repository.go:735-741 | Adds one number to the zone's pool |
| SeqAllocator.SeqTables.AllocateSeq | zzz/goodser/service.go:74-94 | Reuses the least recycled number; when there is none, or the pop fails for any reason, advances the counter |
| ZoneNumbers.RemoveKeepsClearIff | zzz/goodser/service.go:126-147 | Deleting a product and recycling its number leaves no stored product with an available number if and only if no other product carries that number in the zone |
| ZoneNumbers.BatchKeepsClearIff | zzz/goodser/service.go:216-276 | A batch does so if and only if every item finds its code stored or names a number that is not available |
| ZoneNumbers.StepKeepsClearIff | zzz/goodser/service.go:74-616 | For each call on products, orders and the allocator, exactly when it leaves no stored product with a number that AllocateSeq may still hand out |
| ZoneNumbers.RunKeepsClear | zzz/goodser/service.go:74-616 | Over any joint run of both tables whose calls meet that condition, no stored product carries an available number |
| ZoneNumbers.EventuallyAllocated | zzz/goodser/service.go:74-94 | Every recycled number and every number beyond the counter is handed out after enough calls |
| ZoneNumbers.FreshForeverIff | zzz/goodser/service.go:74-94 | AllocateSeq hands out only numbers no stored product of the zone carries, now and however often it is called, whichever pops fail, if and only if no stored product carries an available number |
| ZoneNumbers.SharedNumberIsHandedOut | zzz/goodser/service.go:126-147 | After deleting one of two products with the same zone and number, a later call hands out a number that a stored product carries |
| SlidingWindow.RateLimit.Prune | internal/middleware/ratelimit.go:67-72 | The loop keeps exactly the times inside the window, in order |
| SlidingWindow.RateLimit.Allow | internal/middleware/ratelimit.go:60-81 | Answer and new map of one request |
| SlidingWindow.RateLimit.Cleanup | internal/middleware/ratelimit.go:37-58 | One tick prunes every ip and drops those left empty, in any order |
| SlidingWindow.RecentOfRecent | internal/middleware/ratelimit.go:67-72 | Pruning earlier makes no difference to pruning later |
| SlidingWindow.MapAgreesWithHistory | internal/middleware/ratelimit.go:37-81 | For every later clock reading the pruned map agrees with the full list of admissions |
| SlidingWindow.RefusedIffWindowFull | internal/middleware/ratelimit.go:60-81 | A request is refused if and only if maxRequests admissions of the whole run fall into its window |
| SlidingWindow.WindowNeverOverfull | internal/middleware/ratelimit.go:60-81 | For every T at most maxRequests requests of an ip are admitted in (T - window, T] |
| SlidingWindow.TicksChangeNoAdmission | internal/middleware/ratelimit.go:37-58 | Admissions are the same with and without cleanup ticks |
| SlidingWindow.TicksChangeNoAnswer | internal/middleware/ratelimit.go:37-58 | Inserting or removing cleanup ticks changes no decision |
| SlidingWindow.RequestKeepsWindow | internal/middleware/ratelimit.go:60-81 | After a request, admitted or not, the map holds for its ip exactly the admissions in the window that ends with it |
| SlidingWindow.TickKeepsActive | internal/middleware/ratelimit.go:37-58 | After a cleanup tick the map has an entry exactly for every ip with an admission in the window ending then |
| FixedWindow.RedisRateLimit.Allow | internal/middleware/ratelimit.go:101-115 | INCR, expiry in whole seconds on the first hit, and the comparison; a failing INCR lets the request through, a failing EXPIRE leaves the key without expiry |
| FixedWindow.RunsAreLifetimes | internal/middleware/ratelimit.go:101-115 | Every history is a sequence of key lifetimes with counts 1, 2, 3, ..., openings at least an expiry time apart |
| FixedWindow.OpenedInTime | internal/middleware/ratelimit.go:101-115 | Admissions up to a request whose lifetime opened less than m expiry times after the start of the interval number at most (m + 1) * maxRequests - 1 |
| FixedWindow.FixedWindowBound | internal/middleware/ratelimit.go:101-115 | For every run, every n and every interval of at most n expiry times at most (n + 1) * maxRequests - 1 requests are admitted besides those whose INCR failed; failing EXPIREs do not loosen the bound |
| FixedWindow.LostExpiryBlocks | internal/middleware/ratelimit.go:105-114 | A stuck key stays stuck over every continuation: the ip is refused whenever Redis counts |
| FixedWindow.RefusedAlwaysIff | internal/middleware/ratelimit.go:101-115 | Every request Redis counts is refused, at whatever time it comes, if and only if the ip's key has no expiry and is used up |
| FixedWindow.StuckIff | internal/middleware/ratelimit.go:105-114 | A run ends there if and only if the EXPIRE of some opening request failed and Redis has counted maxRequests of the ip from that request on |
| FixedWindow.OneLostExpiry | internal/middleware/ratelimit.go:105-114 | With a maximum of one, one request whose EXPIRE fails is enough |
| FixedWindow.BoundIsAttained | internal/middleware/ratelimit.go:101-115 | For every maximum, window and n some run admits exactly that many |
| FixedWindow.WindowHoldsIff | internal/middleware/ratelimit.go:92-115 | At most 2 * maxRequests - 1 pass in every configured window of every run if and only if the window is at most a second or a whole number of seconds |
| FixedWindow.WindowNeverTripled | internal/middleware/ratelimit.go:92-115 | Whatever the rounding, at most 3 * maxRequests - 1 pass in every configured window |
| L1Cache.GetRefines | internal/services/cache/cache.go:165-179 | A hit moves the key to the head of the list; an expired entry leaves it |
| L1Cache.SetRefines | internal/services/cache/cache.go:182-194 | A write drops the last slot of a full list and puts the key at its head |
| L1Cache.EvictDropsLastIff | internal/services/cache/cache.go:197-210 | Eviction drops exactly the least recently touched key if and only if that key is not empty |
| L1Cache.StepRefines | internal/services/cache/cache.go:165-245 | Get, set, delete, clear and expiry on the stamped map commute with the recency list |
| L1Cache.LruRefinement | internal/services/cache/cache.go:165-245 | For every run the stamped map is the recency list and holds at most L1MaxSize keys |
| L1Cache.EmptyKeyOutgrows | internal/services/cache/cache.go:197-210 | With an empty key the cache outgrows its maximum |
| L1Cache.SetKeepsSizeIff | internal/services/cache/cache.go:182-210 | A write keeps the cache within its maximum if and only if there is room, the least recently touched key is not empty, or the key written is already there |
| L1Cache.StampsFollowTouches | internal/services/cache/cache.go:165-194 | A stamp is the position of the key's last touch in the run |
| L1Cache.EvictedAfterOthers | internal/services/cache/cache.go:182-210 | When a full cache evicts, at least L1MaxSize - 1 other keys were touched after the victim's last touch |
| L1Cache.KeyLeavesIff | internal/services/cache/cache.go:165-245 | A key comes only by being written; it leaves if and only if it is deleted, cleared or found expired, or another key is written to a full cache of which it is the non-empty least recently touched key; until written again its value and expiry stay |
| L1Cache.OnlyCrowdedOut | internal/services/cache/cache.go:165-245 | Over every run a key that is neither deleted, cleared nor found expired leaves only when at least L1MaxSize - 1 other keys were touched after it |
| CacheRecency.L1IsARun | internal/services/cache/cache.go:271-477 | The L1 level of every run of the cache, with its refills, is a run of L1 operations |
| CacheRecency.CacheKeepsLru | internal/services/cache/cache.go:165-477 | Over every run that names no empty key L1 is the recency list of its own operations, within L1MaxSize, and when full gives up a key after which L1MaxSize - 1 others were touched |
| Codecs.NilConfusionIff | internal/services/cache/cache.go:258-263 | Encoded data looks like the nil placeholder if and only if the codec has version 0 and the payload is "nil" |
| Codecs.DecodesOwnEncoding | internal/services/cache/codecs.go:79-111 | Data goes back to the codec that encoded it, unless its payload is empty |
| Codecs.OldBytesDecode | internal/services/cache/codecs.go:92-111 | Bytes whose first byte names no codec, or with nothing behind it, go to the legacy codec; empty bytes are an error |
| TwoLevelCache.StepKeepsCoherence | internal/services/cache/cache.go:271-506 | Every call, expiry and lock keeps both levels at the last written values |
| TwoLevelCache.RunsAreCoherent | internal/services/cache/cache.go:271-506 | Over any run with arbitrary expiry and eviction, and no SetMany that fails halfway, both levels hold only what was last written |
| TwoLevelCache.GetAnswersLastWrite | internal/services/cache/cache.go:271-318 | Get fails if and only if its context is cancelled or it needs Redis and Redis fails; else it misses if and only if neither level holds the key, and otherwise answers the bytes last written or "nil" |
| TwoLevelCache.GetManyAnswersLastWrites | internal/services/cache/cache.go:321-377 | GetMany fails if and only if it needs Redis and Redis fails; else it answers exactly the keys asked for that a level holds, each with the bytes last written, or a miss when there are none |
| TwoLevelCache.GatherFinds | internal/services/cache/cache.go:321-372 | The two passes find a key if and only if it was asked for and one of the levels holds it |
| TwoLevelCache.NilMeansSetNil | internal/services/cache/cache.go:431-438 | The bytes last written under a key are the placeholder if and only if the last write was SetNil, when encoded data starts with 1 or 2 |
| TwoLevelCache.GetAnswersNilIff | internal/services/cache/cache.go:271-318 | With values encoded by a codec of version 1 or 2, after any run, Get answers nil if and only if it reads a level that holds the key and the last write on the key was SetNil |
| TwoLevelCache.SetManyCoherentIff | internal/services/cache/cache.go:402-428 | Ranging over the items in any order keeps every coherent cache coherent if and only if all items encode or none does |
| TwoLevelCache.SetManyInOrderIff | internal/services/cache/cache.go:402-428 | In one given order it does if and only if all items encode or the first one fails |
| CacheContents.RedisHoldsLast | internal/services/cache/cache.go:271-506 | With Redis, over every run in which the key does not expire there, Redis holds the key if and only if it was written and not deleted since, with the bytes last written |
| CacheContents.GetFindsLastWrite | internal/services/cache/cache.go:271-318 | Then Get without trouble answers the last write, and misses only when there is none, whatever L1 has evicted or let expire |
| CacheContents.WritesLast | internal/services/cache/cache.go:165-194 | L1 answers for a key up to the expiry time of its Set, the time of nil values after SetNil, and the default time after a Get that asked Redis, and not longer |
| CacheContents.ClearKeepsOthers | internal/services/cache/cache.go:465-477 | Clear keeps every Redis key that does not start with `cache:`, with its value |
| CacheContents.LocksFollowHistory | internal/services/cache/cache.go:271-506 | Over every run a lock is held exactly from taking it until it expires; no cache call takes or frees one, not even Clear |
| CacheContents.GetCounts | internal/services/cache/cache.go:271-318 | A Get counts a hit for a value and for a nil found in L1, a miss otherwise, and nothing when its context is cancelled |
| CacheContents.GetManyCounts | internal/services/cache/cache.go:321-377 | A GetMany counts a hit for every key that a level holds and, with Redis, a miss for every other |
| MultiLevelCache.Cache.L1Get | internal/services/cache/cache.go:165-179 | Hit, stamp, or removal of an expired entry |
| MultiLevelCache.Cache.ScanOldest | internal/services/cache/cache.go:198-205 | The scan in map order finds the smallest stamp's key |
| MultiLevelCache.Cache.EvictOneLocked | internal/services/cache/cache.go:197-210 | Removes that key unless it is empty |
| MultiLevelCache.Cache.L1Set | internal/services/cache/cache.go:182-194 | Room, stamp, write |
| MultiLevelCache.Cache.EvictExpired | internal/services/cache/cache.go:227-245 | One pass removes exactly the expired entries |
| MultiLevelCache.Cache.Get | internal/services/cache/cache.go:271-318 | New levels and answer, a failing GET and a cancelled context included; exactly one of hits and misses grows unless the context is cancelled |
| MultiLevelCache.Cache.GetMany | internal/services/cache/cache.go:321-377 | New levels and answer: the values found, a miss when there are none, or the error of the MGET after L1 was read |
| MultiLevelCache.Cache.Set | internal/services/cache/cache.go:380-399 | Both levels written, or nothing when encoding fails; what then has to be in Redis is stated by CacheContents.RedisHoldsLast |
| MultiLevelCache.Cache.SetMany | internal/services/cache/cache.go:402-428 | L1 item by item, Redis only when all encoded, and then every item |
| MultiLevelCache.Cache.SetNil | internal/services/cache/cache.go:431-438 | The placeholder under both levels |
| MultiLevelCache.Cache.Delete | internal/services/cache/cache.go:441-447 | The key leaves both levels |
| MultiLevelCache.Cache.Clear | internal/services/cache/cache.go:465-477 | L1 is emptied and the scan deletes exactly the cache keys of Redis |
| MultiLevelCache.Cache.TryLock | internal/services/cache/cache.go:494-506 | Takes the lock if nobody holds it and says so; without Redis there are no locks |
| AuditLog.MemoryStore.Append | internal/services/audit/audit.go:98-127 | The entry ends the log with the next id; the four indexes keep agreeing with the log |
| AuditLog.IntersectSets | internal/services/audit/audit.go:212-230 | The ids that are in all sets; none for no sets |
| AuditLog.MemoryStore.Collect | internal/services/audit/audit.go:133-162 | The index sets select exactly the entries that match the wanted fields |
| AuditLog.MemoryStore.ScanCandidates | internal/services/audit/audit.go:164-186 | The pass over the log by candidate ids gives the linear scan, in log order |
| AuditLog.MemoryStore.Query | internal/services/audit/audit.go:129-199 | The query through the indexes is the page of the linear scan, in log order; every entry answered is in the log and was asked for, and without offset and limit every such entry is answered |
| AuditLog.ScanSelects | internal/services/audit/audit.go:133-210 | The scan holds an entry if and only if it is in the log, every wanted field is empty or equal, and its time is not before the start nor after the end where these are given; ids keep rising |
| AuditLog.PageSelects | internal/services/audit/audit.go:188-199 | A page holds only such entries, and all of them when neither an offset nor a limit cuts it |
| AuditLog.PagesConcatenate | internal/services/audit/audit.go:188-193 | Consecutive pages concatenate to the whole result |
| AuditLog.OffsetSkipsIff | internal/services/audit/audit.go:188-193 | For every limit, an offset skips if and only if it is below the match count |
| Breakers.DatabaseBreaker.Run | internal/database/breaker.go:58-69 | One protected call: asked, and if allowed counted as success or failure |
| Breakers.DatabaseBreaker.Allow | internal/database/breaker.go:33-43 | Answer and new state; an open breaker past its timeout goes half-open |
| Breakers.DatabaseBreaker.Failure | internal/database/breaker.go:50-56 | Counts, and opens at the threshold |
| Breakers.NetworkBreaker.Allow | pkg/net/breaker.go:68-89 | Answer and new state |
| Breakers.NetworkBreaker.Success | pkg/net/breaker.go:92-111 | Counts while half-open and closes after enough successes; clears failures while closed |
| Breakers.NetworkBreaker.Failure | pkg/net/breaker.go:114-132 | Counts, reopens from half-open, opens at the threshold while closed |
| Breakers.RunsAreRelated | internal/database/breaker.go:33-69 | The bisimulation holds after every run: equal states, equal counters while closed, failures >= threshold otherwise |
| Breakers.BisimilarIff | pkg/net/breaker.go:68-132 | Every run gives the same states and answers if and only if the success threshold is at most 1 |
| Breakers.StepKeepsRelatedIff | internal/database/breaker.go:33-56 | From related breakers one question or outcome keeps them related, and equally keeps their states and all answers equal, if and only if it is no outcome reported while open (except a failure at the very time that opened them) |
| Breakers.OverlappingCallsAgreeIff | pkg/net/breaker.go:68-132 | Over every interleaving of questions and outcomes of overlapping calls, the two breakers keep the same states and answers throughout if and only if no outcome comes late |
| Breakers.NetClosesIff | pkg/net/breaker.go:68-111 | For every threshold: k successes after the question that made the network breaker half-open close it if and only if k is at least 1 and at least successThreshold |
| Breakers.NetCountersFollow | pkg/net/breaker.go:68-132 | Over every interleaving, a half-open breaker counts the successes since that question, and a closed one the failures since the last success or closing, below its threshold |
| Breakers.NetOpensIff | pkg/net/breaker.go:68-132 | From closed, k failures in a row open the network breaker if and only if k reaches the threshold; it then refuses until its timeout has passed |
| Breakers.DbOpensIff | internal/database/breaker.go:33-56 | The same for the database breaker and its recovery time |
| Breakers.DbClosesIff | internal/database/breaker.go:33-48 | An open database breaker past its recovery time goes half-open when asked and closes with one success |
| Breakers.ProbeFailureReopens | internal/database/breaker.go:33-56 | A failure while half-open reopens either breaker for its whole time; the network breaker counts from zero again |
| Hex.DecodeOfEncode | internal/services/crypto/crypto.go:90-108 | Hex decoding undoes encoding (section 8 of RFC 4648) |
| Hex.DecodesIff | internal/services/crypto/crypto.go:98-108 | Exactly the texts of even length in hex digits of either case decode, and encoding gives them back in lower case |
| Hex.Foobar | internal/services/crypto/crypto.go:90-96 | The example of section 10 of RFC 4648 |
| Decimal.ValueOfPadded | zzz/goodser/service.go:157 | Zero-padded printing of a natural number is read back, whatever the width |
| Decimal.AtoiOfDigits | internal/services/crypto/key.go:123-136 | Parsing undoes printing exactly on the non-negative int64 range |
| Decimal.AtoiOfNegative | internal/services/crypto/key.go:123-136 | And on the negative range, which reaches one further |
| KeyRotation.NewKeyManager | internal/services/crypto/key.go:25-58 | Succeeds if and only if every key parses; keeps exactly the old keys; the current version is the smallest one free |
| KeyRotation.ParseAll | internal/services/crypto/key.go:41-47 | The loop parses all old keys, in any order, or finds one that does not parse |
| KeyRotation.FirstFree | internal/services/crypto/key.go:49-55 | The version search ends at the smallest free version |
| KeyRotation.PrefixRoundTrip | internal/services/crypto/key.go:123-136 | Parsing undoes the prefix for every version an int64 holds |
| KeyRotation.DecryptSelects | internal/services/crypto/key.go:78-99 | Decryption opens with the key the reader selects for the writer's version |
| KeyRotation.ReadsIff | internal/services/crypto/key.go:64-99 | One manager reads everything another writes, for every correct cipher, if and only if it selects the writer's key |
| KeyRotation.ChainDecrypts | internal/services/crypto/key.go:25-99 | Along any chain of rotations every later manager decrypts what any earlier one encrypted |
| KeyRotation.FirstFreeIsSmall | internal/services/crypto/key.go:49-55 | The version found is at most one more than the number of stored keys, so it fits into an int |
| KeyRotation.RebuildingRotates | internal/services/crypto/key.go:25-58 | Building a manager from all old keys and its predecessor's current one under its version is a rotation |
| KeyRotation.RebuiltManagersDecrypt | internal/services/crypto/key.go:25-99 | Managers built one after the other through NewKeyManager form a chain, and every later one decrypts what any earlier one encrypted |
| KeyRotation.DroppedVersionIsReused | internal/services/crypto/key.go:49-55 | Dropping a stored version lets the next key take its number and old texts select the wrong key |
| KeyRotation.KeyParsesIff | internal/services/crypto/crypto.go:30-43 | A key is read back from its hex if and only if it has 16, 24 or 32 bytes |
| KeyRotation.HexHasNoVersion | internal/services/crypto/key.go:123-136 | Hex is never taken for a text with a version prefix |
| KeyRotation.PlainHexDecrypts | internal/services/crypto/key.go:86-99 | A text sealed without the version prefix is read by every manager whose current key sealed it |
| KeyRotation.FirstPrefix | internal/services/crypto/key.go:78-84 | Under version 1 a text starts with v1 and a colon, followed by its hex |
| Shards.IdsAreDistinct | internal/services/crypto/compress.go:233-240 | Shard ids differ for all indices, however many digits they need |
| Shards.EighthShard | internal/services/crypto/compress.go:233-240 | The eighth shard ends in _007 |
| Shards.Compress | internal/services/crypto/compress.go:213-251 | The shards are the consecutive cuts of the payload under their ids, or nothing when the size overflows |
| Shards.Decompress | internal/services/crypto/compress.go:254-273 | The merge in id order, or the first missing id, an empty list, or a wrong password |
| Shards.MergeStopsAtMissing | internal/services/crypto/compress.go:260-266 | The first missing shard is the one reported |
| Shards.MergedFailsIff | internal/services/crypto/compress.go:254-273 | Merging fails if and only if the list is empty, a listed shard is missing, or the password does not open the merged bytes |
| Shards.NewSplitter | internal/services/crypto/compress.go:192-204 | The password, size and prefix given are kept; no size means 10 MiB and no prefix means shard |
| Shards.RoundTripIff | internal/services/crypto/compress.go:192-273 | For every splitter NewSplitCompression builds, merging gives the payload back if and only if it is not empty and size plus shard size stays within int64; else the empty-list error |
| Shards.ShardsAreFull | internal/services/crypto/compress.go:213-251 | Every shard is full but possibly the last, which is not empty; all ids are distinct |
| SchemaMigrator.SortSorts | internal/services/migrate/schema.go:251-255 | The sorted directory ascends and is a permutation of the files |
| SchemaMigrator.Migrator.Apply | internal/services/migrate/schema.go:115-141 | Reads the table; refused if the read shows the version; executed, then recorded, failing at any point; a version that is in the table cannot be recorded again |
| SchemaMigrator.ErrorNamesCause | internal/services/migrate/schema.go:115-141 | The error of an attempt names the version and how far it got, and there is none if and only if it passed |
| SchemaMigrator.Migrator.ApplyAll | internal/services/migrate/schema.go:143-158 | Fails when directory or table cannot be read; else applies the pending list in order and stops at the first error |
| SchemaMigrator.Migrator.PendingFiles | internal/services/migrate/schema.go:89-113 | The sorted files whose version the read did not show |
| SchemaMigrator.Migrator.ReadApplied | internal/services/migrate/schema.go:46-81 | The versions a read reports: an error, or what the type switch makes of the rows the read delivered |
| SchemaMigrator.AppliedIs | internal/services/migrate/schema.go:50-57 | On MySQL the rows delivered; on Postgres, whose INT cells are int32, at most the version 0 |
| SchemaMigrator.ReadSeesAllIff | internal/services/migrate/adapter.go:65-118 | A read of the table that reports no error saw all of it if and only if no page read broke before its last row |
| SchemaMigrator.RunRecordsPrefix | internal/services/migrate/schema.go:143-158 | One run records exactly a prefix of its list; every attempt in it passes, and the run fails if and only if the prefix is proper, at the next attempt, whose read fails or shows the version, whose SQL or record fails, or whose version is in the table |
| SchemaMigrator.RunExecutesAttempted | internal/services/migrate/schema.go:115-158 | A run executes that prefix and the file it failed on if it got past the read, in order |
| SchemaMigrator.FaultlessRunSucceedsIff | internal/services/migrate/schema.go:115-158 | On MySQL without faults a run succeeds if and only if the pending versions are distinct |
| SchemaMigrator.RecordedNeverRerunIff | internal/services/migrate/schema.go:89-158 | Over any number of runs with any faults, no recorded version is executed again if and only if no run stops at a recorded file that its own read does not show |
| SchemaMigrator.ReadsCanRerunIff | internal/services/migrate/schema.go:89-158 | Given what each read of a run brings, the run can execute a recorded version if and only if the reads let all files pass up to a recorded one that its own attempt's read does not show |
| SchemaMigrator.CutReadsCanRerunIff | internal/services/migrate/schema.go:89-158 | When the reads of a run break off after the same rows, the run can execute a recorded version if and only if the reads hide a recorded version that is in the directory |
| SchemaMigrator.WholeReadsAreSafeIff | internal/services/migrate/schema.go:46-81 | With reads that are complete or fail, no recorded version is ever executed again if and only if the database is MySQL |
| SchemaMigrator.PostgresRerun | internal/services/migrate/schema.go:50-57 | The failing run: on Postgres, without any fault, the second run executes the first migration again and then fails to record it |
| SchemaMigrator.EveryRunRecordsPrefix | internal/services/migrate/schema.go:89-158 | From any table and with any reads, each run executes in strictly ascending order and records a prefix of what is pending; one that cannot read does nothing |
| SchemaMigrator.SuccessRecordsDirectoryIff | internal/services/migrate/schema.go:89-158 | A run that succeeds leaves its whole directory recorded, if and only if it is not the case that version 0 is in it and only seemed recorded |
| SchemaMigrator.NextRunDoesNothingIff | internal/services/migrate/schema.go:89-158 | Once a directory is recorded, the next run succeeds and executes nothing if and only if its read works and shows every version of the directory |
| SchemaMigrator.CreatedFileIsNewest | internal/services/migrate/schema.go:258-292 | A created file's name parses back to its version, which is above every existing one |
| SchemaMigrator.NextVersion | internal/services/migrate/schema.go:276-281 | The new version is above all others and, unless it is 1, exactly one above one of them |
| SchemaMigrator.NumberedFile | internal/services/migrate/schema.go:258-268 | Every file name that starts with digits and an underscore has their value as its version |
| SchemaMigrator.SeventhFile | internal/services/migrate/schema.go:284 | The seventh migration is numbered 007 |
| Transfer.InsertBatch | internal/services/migrate/adapter.go:120-143 | MySQL keeps all or nothing of a failing batch, Postgres the rows before the failing one |
| Transfer.ReadPage | internal/services/migrate/adapter.go:90-107 | The row loop of a page ends at the end of the page or of the read, which look the same |
| Transfer.CopyPages | internal/services/migrate/adapter.go:65-118 | The paging loop ends and appends exactly a prefix of the source, of the length and with the error that refused pages, broken reads and the room of the destination determine |
| Transfer.FirstFaultDecides | internal/services/migrate/adapter.go:231-281 | The first page that is refused or breaks off decides: all i * size rows before it are delivered, and of a broken page the rows read; only a refusal is an error |
| Transfer.WholeTableIff | internal/services/migrate/adapter.go:65-118 | Every row is delivered without an error if and only if no page is refused and no read breaks before its last row |
| Transfer.WholePagesIs | internal/services/migrate/adapter.go:120-143 | What a failing statement leaves behind is the whole pages that fit: room / size * size |
| Transfer.FaultlessCopy | internal/services/migrate/adapter.go:65-118 | Without faults every row arrives, whatever the batch size |
| Transfer.CopySucceedsIff | internal/services/migrate/adapter.go:231-305 | The copy reports success if and only if what is delivered fits and the first faulty page, if any, is a broken read rather than a refusal |
| Transfer.SuccessIsWholeIff | internal/services/migrate/adapter.go:65-118 | A reported success brought the whole table if and only if no page read broke before its last row |
| Transfer.BrokenReadPasses | internal/services/migrate/adapter.go:90-116 | A table of three rows whose second page read breaks: two rows arrive and the copy reports success |
| Transfer.TableGetsPrefix | internal/services/migrate/transfer.go:33-67 | A table ends as its starting rows plus a prefix of the source, which a success counts; no other table changes; a success is the whole source if and only if no page read broke early |
| Transfer.TableIsCreatedAndFilled | internal/services/migrate/transfer.go:33-67 | When the source has the table and its schema reads, a table to be created or dropped first exists afterwards if creation works; without faults of the copy it, and any table already there, gains the whole source, which is counted |
| Transfer.MissingTargetFailsIff | internal/services/migrate/transfer.go:33-67 | With neither option a destination table that is missing stays missing, and that is an error if and only if there are rows to insert |
| Transfer.EarlyFailures | internal/services/migrate/transfer.go:33-47 | A schema that cannot be read changes nothing, a creation that fails drops the table at most, and the error tells the two apart |
| Transfer.MissingTableKeepsRowsIff | internal/services/migrate/transfer.go:33-47 | A table the source lacks is always an error; the destination keeps its rows of that name if and only if it is not to be dropped, has none, or the source reports the missing table |
| Transfer.EveryTableIsAccounted | internal/services/migrate/transfer.go:8-31 | Tables succeeded plus errors are the tables requested; the rows counted are at most those of the successes, and all of them if and only if no page read broke in one of these |
| Transfer.ErrorsFollowTables | internal/services/migrate/transfer.go:17-31 | The error of a failing table stands behind those of the tables before it |
| Transfer.Job.CopyTable | internal/services/migrate/transfer.go:33-67 | One table: schema, dropping and creation, paging, for either kind of source and destination; a missing table of a Postgres source has an empty schema |
| Transfer.Job.Run | internal/services/migrate/transfer.go:8-31 | The tables named, or else those the source lists; a failed listing ends the job, and only a Postgres listing can be cut short unnoticed |
| Transfer.ListTables | internal/services/migrate/adapter.go:188-203 | The listing loop: on MySQL a listing that breaks off is an error, on Postgres a shorter list |
| Transfer.UnnamedJobCoversIff | internal/services/migrate/transfer.go:8-15 | A job without named tables takes on every source table if and only if the listing was not cut short |
| Transfer.MySQLListsAll | internal/services/migrate/adapter.go:188-203 | From MySQL a listing is whole or an error |
| Transfer.SizeOf | internal/services/migrate/transfer.go:18-20 | A batch size that is not positive means 500 |
| Transfer.Job.RunAll | internal/services/migrate/transfer.go:22-28 | All tables in turn; a failing table is noted and the next one tried |
| Hub.RegisterConsistentIff | internal/services/ws/hub.go:52-57 | Registering a new id keeps the indexes consistent if and only if the client lists no room |
| Hub.JoinOfRegistered | internal/services/ws/hub.go:79-90 | A registered client may join any room |
| Hub.JoinOfStranger | internal/services/ws/hub.go:79-90 | A client that is not registered breaks consistency by joining |
| Hub.RemovalConsistent | internal/services/ws/hub.go:93-103 | Taking a client out of rooms it no longer lists keeps the indexes inverse and no room empty |
| Hub.LeaveEverywhere | internal/services/ws/hub.go:60-76 | A client taken out of all its rooms and the register is listed nowhere |
| Hub.Hub.Register | internal/services/ws/hub.go:52-57 | The client is registered under its id; consistency as above |
| Hub.Hub.Unregister | internal/services/ws/hub.go:60-76 | The client leaves every room it lists and is closed; no room lists it afterwards |
| Hub.Hub.JoinRoom | internal/services/ws/hub.go:79-90 | Both indexes gain the membership; consistent if and only if the client is registered |
| Hub.Hub.LeaveRoom | internal/services/ws/hub.go:93-103 | Both indexes lose the membership; an empty room goes |
| Hub.StepKeepsGood | internal/services/ws/hub.go:52-103 | Every event of clients with unique ids, registered fresh and joining while registered, keeps both indexes consistent |
| Hub.RoomsFollowHistory | internal/services/ws/hub.go:52-103 | After every run a room lists exactly the clients that the history of joins, leaves and exits puts there, and the register holds exactly those that entered and did not exit |
| Hub.UnregisterTwice | internal/services/ws/handler.go:71-101 | Unregistering from both pumps leaves the client nowhere and every other membership as it was |

## Left out

- GoodserService.Service: row ids are UUIDs in the code and increasing numbers here; an order's id is its position, since orders are never deleted.
- GoodserService.Service: failures of single SQL statements other than missing rows are not modelled, except for recycling in DeleteProductRow; the ignored error of `tx.Commit` is not either.
- GoodserService.Service: calls are atomic; row locks between concurrent transactions are not modelled.
- GoodserService.Repository.FindProductByCode: when a code is not unique the code takes whichever row the database returns; here it is the oldest.
- GoodserService.Service.InboundSingleProduct: inbound log rows, names, prices, tags and the JSON of item lists are left out; quantities are unbounded integers.
- GoodserService.Repository.FindProductByCode: strings are compared exactly, here and in zone lookups; MySQL's default utf8mb4 collation ignores case and some accents, so codes and zones that differ only in these would be taken for equal.
- GoodserService.Repository.GetProductForUpdateTx: products are read with a column `image_list` that the table created by the module does not have; the model has no columns and reads always work.
- Free-form `UpdateProduct`, which can write quantity, zone and sequence outside the protocol; tags, status codes and inbound-log edits.
- SeqAllocator.SeqTables.IncrementSeqCounter: the unique key on the zone is taken for granted, the counter is unbounded, and a failing counter statement is left out.
- SlidingWindow.RateLimit.Allow: clock readings are integers; `time.Duration` saturation is left out.
- MultiLevelCache.Cache: singleflight, Redis errors on writing and deleting, metrics, slow log, invalidation messages, Exists, Warmup and Unlock are left out; TTL jitter enters through the expiry time passed in.
- CacheContents.RedisHoldsLast: Redis keeps no expiry times here; any of its keys may go at any moment of a run, those of SetMany, which sets none, included.
- MultiLevelCache.Cache.SetMany: the order in which Go ranges over the items is the order of a sequence parameter.
- MultiLevelCache.Cache.Get: decoding into the caller's value is not part of the answer, which is the stored bytes; `Codecs` treats decoding.
- MultiLevelCache.Cache.L1Get: the clock is required to be below its int64 limit, after which stamps would wrap.
- AuditLog.MemoryStore.Query: the MySQL store and closing of the store are left out.
- Breakers.NetworkBreaker.Allow: the half-open channel, `Reset` and int32 counters are left out; each call is atomic.
- KeyRotation.ChainDecrypts: the cipher is an abstract pair of functions; encryption of byte slices, files and passwords is left out.
- Shards.Compress: the version and password flag of the metadata, and Serialize and Deserialize, are left out; password encryption is an abstract pair of functions.
- SchemaMigrator.Migrator.Apply: checksums, descriptions, times, the status report and a multi-statement file that fails halfway are left out; an execution succeeds or fails as a whole. That MySQL's driver hands over INT cells as int64 and pgx as int32 is taken from the drivers.
- SchemaMigrator.CreatedFileIsNewest: signs and leading spaces that Sscanf accepts cannot occur in created names and are not modelled.
- Transfer.CopyPages: the source is fixed during the copy and pages come in one stable order; column lists are left out.
- Transfer.Job.CopyTable: rows are copied whole; a Postgres column listing that breaks off, which leaves columns out of the copy, is not modelled.
- Transfer.Job.CopyTable: the ignored error of DROP TABLE is left out; a drop always succeeds.
- Hub.Hub.Unregister: sending, broadcasting, message handlers, history and server-sent events are left out.
- HTTP handlers, routing, clients, object storage, mail, AI providers, metrics, scheduler, dump and restore, dead-letter queue, streams, feature flags, access control and configuration: input and output, library wrappers, or only easy members.
