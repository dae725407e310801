# HERE OLP edge SDK for C++: a Dafny model of its stateful core

This project models the parts of the SDK that hold state, recursion or arithmetic, and proves what they promise
over every input, every sequence of calls and every interleaving of steps. `dafny verify dfyconfig.toml` checks it.

| file | models |
|---|---|
| `TileKeys.dfy`, `MortonCode.dfy`, `PrefetchTiles.dfy` | tile keys of the quad tree, their table-driven codes, and the prefetch planner |
| `LruCache.dfy`, `InMemoryCache.dfy`, `CachePolicy.dfy`, `DiskCache.dfy`, `DefaultCache.dfy`, `CacheReads.dfy` | the expiring two-tier cache, with the chained LRU cache under its memory tier |
| `NetworkRequestPriorityQueue.dfy`, `RequestScheduler.dfy`, `ServiceOrder.dfy` | the priority queue and the quota scheduler around the network protocol |
| `MultiRequestContext.dfy`, `PendingRequests.dfy` | coalescing of equal requests and gating of callbacks |
| `StreamQueue.dfy`, `PersistentQueue.dfy` | the publish queue kept in a cache and its flush loop; how its list fares in the two-tier cache |
| `Sha256Constants.dfy`, `Sha256Standard.dfy`, `Crypto.dfy` | SHA-256 and HMAC: the standards, and the code that computes them |
| `Hrn.dfy`, `Url.dfy`, `CancellationTokenList.dfy` | HRN parsing, percent-encoding, the sorted list of tokens |
| `Decimals.dfy`, `Wrappers.dfy` | decimal numerals and the option type |

Objects whose methods update fields are classes whose methods are proved against functions on values; the theorems
are about those functions. Protocols with several threads are step systems: each section under a lock, each atomic
counter update and each callback is one step, and a theorem about a reachable state is a theorem about every
interleaving. Clock readings, random identifiers, database failures, cancellations and provider answers are
parameters or steps of the environment.

## What turned out not to hold

Where a property one would expect is false of the code, the code is modelled as it is; the project shows the
failure and says exactly when the property holds.

- Overwriting a cached value. `LruCache::InsertOrAssign` returns false for an assignment
  (`olp-cpp-sdk-core/include/olp/core/utils/LruCache.h:441-447`), and `InMemoryCache::Put` and `DefaultCache::Put`
  take that for a failure. So a put over a value that is still in memory reports failure (`ReportedExactly`), updates
  memory only, and leaves the old value on disk: `OverwriteReportsFailure`, `OverwriteGoesStale`. It is right exactly
  when the disk tier is absent, has no entry of the key, or has the same value (`OverwriteExact`). In general a call
  keeps a key right exactly when it is `Safe` for the key, a condition on the state before the call (`StepExact`,
  `RunExact`); calls that report success are safe as far as values go (`SuccessRunIsSafe`), and a successful removal
  makes a key right again whatever came before (`RightSinceRemoval`).
- The publish queue over that cache. The client overwrites its list of keys with every call, so no update reaches the
  disk while the list stays in memory (`DiskFrozen`), and when it is driven out the queue is read as it was before all
  of them (`StaleQueue`, `StaleExample`). `ReadBackExactly` says when the list read is the one last written. Without a
  memory tier the cache is the map that the client takes it for (`DiskOnlyQueue`, `DiskOnlyPop`), but then a pop makes
  the queue shorter exactly when the database takes the shorter list (`PopProgressExactly`); if it does not, a flush
  goes on without end (`PopWithoutProgress`).
- The expiry index. For the same reason a put that gives a stored item another expiry is not entered in the index
  (`RedateExample`); `PutListed` says exactly which puts those are.
- Expiry on disk. An entry whose companion key `<key>::expiry` goes while the entry stays is immortal. That happens to
  an entry with a deadline exactly when a removed prefix matches the companion but not the key (`PrefixDisk`,
  `PrefixUnexpires`), or when a read that discards the expired entry deletes the companion but fails to delete the
  entry, which the original does not look at (`DiscardExact`, `HalfDiscardUnexpires`). `NeverTooLate` excludes
  exactly those calls and, of failed puts and removals, exactly those that leave a wrong value or a later expiry
  behind.
- Early misses. A value put without expiry over one that had one keeps the old companion on disk, and is not read from
  there any more once that has expired; `ReadAfterPut` says exactly when a value is read back.
- The quota counter. A send for which the protocol is not ready raises the counter for good. A group at rest has a
  counter equal to the number of such sends (`RestingCounter`), and when all of its quota is gone it never sends
  again (`StarvedForever`, `StarvationExample`); from any state it can be served again exactly as long as not all of
  its quota is gone (`ServedExactly`).
- Cancelling a shared request. A cancellation takes out the context under the key, whoever shares it: a caller gets no
  answer exactly when someone else's cancellation did that (`LostExactlyWhenDroppedByAnother`, `DroppedForever`). It
  does not stop an execution that has not started yet (`StillToExecute`). Since
  completions and tokens know only the key, an old execution can answer for a newer context (`CompletionTarget`,
  `StaleAnswerExample`), and an old token can drop one (`StaleTokenDropsOthers`).
- Prefetch requests. `CatalogClientImpl::PrefetchTiles` passes on the user's own callback instead of the gated one, so its
  key is never removed from the table (`PrefetchStays`) and the callback is not gated (`PrefetchUngated`).
- The walk to the parents. It ends exactly when the minimum level is not 0 (`ParentWalkEnds`), because the parent of the
  root is the invalid key of level 32 and the walk goes on from there (`WalkRestarts`); so the planner is modelled for
  minimum levels of at least 1.
- Cancelling all tokens. Every entry is cancelled once exactly when no two entries share an id (`EachCancelledOnce`);
  of two that do, the first is cancelled twice and the second never (`SharedIdExample`, `NeverCancelled`).
- Printing an HRN. It is read back exactly when no colon is in a field that a colon follows (`RoundTrip`).

## Model

| member | source | states |
|---|---|---|
| `TileKeys.ChildOfParent` | olp-cpp-sdk-core/src/geo/tiling/TileKey.cpp:140-144 | every tile but the root is the child of its parent that its quadrant names, and lies in the grid exactly when the parent does |
| `TileKeys.ParentOfChild` | olp-cpp-sdk-core/src/geo/tiling/TileKey.cpp:245-252 | a child's parent is the tile again, its quadrant the child's index, and the grid is kept |
| `TileKeys.UnderChildren` | olp-cpp-sdk-core/include/olp/core/geo/tiling/TileKey.h:34-62 | what lies strictly below a tile is exactly what lies below one of its four children |
| `TileKeys.QuadKeyRoundTrip` | olp-cpp-sdk-core/src/geo/tiling/TileKey.cpp:117-129 | decoding a tile's 64-bit key gives the tile back |
| `MortonCode.TableSpreads` | olp-cpp-sdk-core/src/geo/tiling/TileKey.cpp:74-103 | each of the 256 table entries is its index with the bits spread apart |
| `MortonCode.QuadKeyClosed` | olp-cpp-sdk-core/src/geo/tiling/TileKey.cpp:105-105 | the code is a leading one before the row's bits on odd and the column's on even places |
| `MortonCode.LookUpsAreQuadKey` | olp-cpp-sdk-core/src/geo/tiling/TileKey.cpp:73-115 | for every tile of the levels 0 to 31 the eight look-ups, shifted in 64-bit words and combined by bitwise or, are the tile's code |
| `TileKeys.FromQuadKey64` | olp-cpp-sdk-core/src/geo/tiling/TileKey.cpp:117-129 | the loop over bit pairs, low bits first, computes the tile that the recursive decoding defines, for every key |
| `TileKeys.HereTileInjective` | olp-cpp-sdk-core/src/geo/tiling/TileKey.cpp:60-64 | no two tiles of the grid share a decimal name |
| `TileKeys.HereTileRoundTrip` | olp-cpp-sdk-core/src/geo/tiling/TileKey.cpp:60-71 | reading a tile's name as a decimal number and decoding it gives the tile back |
| `TileKeys.FitsMachineWords` | olp-cpp-sdk-core/include/olp/core/geo/tiling/TileKey.h:66-90 | on levels 0 to 31 rows, columns and keys fit 32 and 64 bits |
| `TileKeys.ParentWalkEnds` | olp-cpp-sdk-dataservice-read/src/repositories/PrefetchTilesRepository.cpp:78-85 | the unguarded walk to the parents leaves the range exactly when the minimum level is not 0 |
| `TileKeys.WalkRestarts` | olp-cpp-sdk-core/src/geo/tiling/TileKey.cpp:140-144 | past the root the walk is at the invalid key of level 32, and 32 steps later at the root again |
| `PrefetchTiles.MergeCovers` | olp-cpp-sdk-dataservice-read/src/repositories/PrefetchTilesRepository.cpp:57-66 | merging two plans by the greater depth asks for exactly the tiles that one or the other asked for |
| `PrefetchTiles.MergeInto` | olp-cpp-sdk-dataservice-read/src/repositories/PrefetchTilesRepository.cpp:87-97 | the find-or-insert loop computes that merge, in whatever order the map is visited |
| `PrefetchTiles.GetChildAtLevel` | olp-cpp-sdk-dataservice-read/src/repositories/PrefetchTilesRepository.cpp:128-139 | exactly the descendants on the level, each once, 4^k of them k levels down; the tile itself if it is on or below the level |
| `PrefetchTiles.AddParents` | olp-cpp-sdk-dataservice-read/src/repositories/PrefetchTilesRepository.cpp:78-85 | exactly the proper ancestors in the range, each asked for alone, with depth 0 |
| `PrefetchTiles.AddChildren` | olp-cpp-sdk-dataservice-read/src/repositories/PrefetchTilesRepository.cpp:87-107 | adds exactly the tiles of the range below the given tiles, none twice, in queries as deep as they go |
| `PrefetchTiles.EffectiveTileKeys` | olp-cpp-sdk-dataservice-read/src/repositories/PrefetchTilesRepository.cpp:72-126 | for one tile the plan asks for exactly the wanted tiles, no tile twice; proper ancestors with depth 0, every other entry down to the last level but at most 4 levels; the recursion ends |
| `PrefetchTiles.SingleQuery` | olp-cpp-sdk-dataservice-read/src/repositories/PrefetchTilesRepository.cpp:113-118 | a tile of the range with at most 4 levels below it is asked for in a single query, if without its ancestors |
| `PrefetchTiles.EmptyExactlyOnEmptyRange` | olp-cpp-sdk-dataservice-read/src/repositories/PrefetchTilesRepository.cpp:72-126 | such a plan is empty exactly when the minimum level is above the maximum |
| `PrefetchTiles.EffectiveTileKeysOf` | olp-cpp-sdk-dataservice-read/src/repositories/PrefetchTilesRepository.cpp:52-70 | for every list of tiles the plan asks for exactly the tiles of the range that are descendants, ancestors or equal to a given tile; empty only without tiles or range; in machine words for maximum levels up to 31 |
| `PrefetchTiles.PlanFitsWords` | olp-cpp-sdk-dataservice-read/src/repositories/PrefetchTilesRepository.cpp:52-126 | a plan for maximum levels up to 31 holds no tile whose row, column or code overflows 32 or 64 bits |
| `InMemoryCache.MemoryCache.Put` | olp-cpp-sdk-core/src/cache/InMemoryCache.cpp:63-81 | the new state of items and index, and that it reports true only for an insertion |
| `InMemoryCache.MemoryCache.Get` | olp-cpp-sdk-core/src/cache/InMemoryCache.cpp:83-97 | a value only while it has not expired; promotion and the purge of an expired bucket |
| `InMemoryCache.MemoryCache.Remove` | olp-cpp-sdk-core/src/cache/InMemoryCache.cpp:107-110 | the item of the key goes, the index stays |
| `InMemoryCache.MemoryCache.RemoveKeysWithPrefix` | olp-cpp-sdk-core/src/cache/InMemoryCache.cpp:112-122 | iterate-and-erase keeps exactly the items without the prefix, in their order |
| `InMemoryCache.MemoryCache.PurgeExpired` | olp-cpp-sdk-core/src/cache/InMemoryCache.cpp:124-137 | collecting expired times up to the first unexpired one and purging them is the purge from the front of the index |
| `InMemoryCache.MemoryCache.PurgeExpiredAt` | olp-cpp-sdk-core/src/cache/InMemoryCache.cpp:139-147 | all keys of the bucket are erased and the bucket goes |
| `InMemoryCache.MemoryCache.OnEviction` | olp-cpp-sdk-core/src/cache/InMemoryCache.cpp:149-163 | the edit of a bucket's copy has no effect but to drop an empty bucket |
| `InMemoryCache.MemoryCache.InsertOrAssign` | olp-cpp-sdk-core/src/cache/InMemoryCache.cpp:53-56 | insertion or assignment in front, then eviction, with the callback run on each evicted item; true only for an insertion |
| `InMemoryCache.EvictedParts` | olp-cpp-sdk-core/src/cache/InMemoryCache.cpp:149-163 | eviction is popping from the back of the list and running the callback on what was popped, in that order |
| `LruCache.DropLinked` | olp-cpp-sdk-core/include/olp/core/utils/LruCache.h:515-523 | linking the neighbours of a bucket to each other leaves a chain of the other items in their order, forwards and backwards |
| `LruCache.PushLinked` | olp-cpp-sdk-core/include/olp/core/utils/LruCache.h:493-497 | linking a bucket before the first leaves a chain with its item in front |
| `LruCache.PromoteSpec` | olp-cpp-sdk-core/include/olp/core/utils/LruCache.h:463-482 | relinking a bucket in place is moving its item to the front of the list; the size stays the sum of the costs |
| `LruCache.Chain.EraseAt` | olp-cpp-sdk-core/include/olp/core/utils/LruCache.h:511-531 | the chain without the bucket is the list without the item, and the size its cost |
| `LruCache.Chain.Erase` | olp-cpp-sdk-core/include/olp/core/utils/LruCache.h:227-233 | erases the item of the key if there is one, and says whether there was |
| `LruCache.Chain.Promote` | olp-cpp-sdk-core/include/olp/core/utils/LruCache.h:463-482 | the bucket's item moves to the front of the list |
| `LruCache.Chain.Lookup` | olp-cpp-sdk-core/include/olp/core/utils/LruCache.h:277-281 | the item of the key, which moves to the front |
| `LruCache.Chain.Next` | olp-cpp-sdk-core/include/olp/core/utils/LruCache.h:572-575 | following a link steps to the next item of the list |
| `LruCache.Chain.Insert` | olp-cpp-sdk-core/include/olp/core/utils/LruCache.h:488-499 | a new bucket goes to the front, also into an empty chain |
| `LruCache.Chain.Assign` | olp-cpp-sdk-core/include/olp/core/utils/LruCache.h:500-504 | another value in a bucket corrects the size and moves it to the front |
| `LruCache.Chain.Evict` | olp-cpp-sdk-core/include/olp/core/utils/LruCache.h:404-406 | the least recently used items go until the running size fits, the last first |
| `LruCache.Chain.InsertOrAssign` | olp-cpp-sdk-core/include/olp/core/utils/LruCache.h:433-460 | insertion or assignment in front, then eviction; true only for an insertion, nothing for an item that cannot fit |
| `InMemoryCache.EvictedKeepsFirst` | olp-cpp-sdk-core/include/olp/core/utils/LruCache.h:484-509 | after eviction the cost fits, and the newest item is left exactly when it fits alone |
| `CachePolicy.EvictsNoMore` | olp-cpp-sdk-core/include/olp/core/utils/LruCache.h:404-406 | eviction keeps the longest front of the list that fits, so it takes no item more than it must |
| `CachePolicy.InOrderOfUse` | olp-cpp-sdk-core/include/olp/core/utils/LruCache.h:433-482 | after any run of calls the items are in the order of their last read or put, the latest first |
| `CachePolicy.LeastRecentlyUsedGo` | olp-cpp-sdk-core/include/olp/core/utils/LruCache.h:404-406 | over any run, what a put evicts was used less recently than everything it keeps |
| `InMemoryCache.EvictedKeys` | olp-cpp-sdk-core/src/cache/InMemoryCache.cpp:149-163 | evictions change nothing that the index lists |
| `InMemoryCache.AcceptedItems` | olp-cpp-sdk-core/src/cache/InMemoryCache.cpp:63-81 | after an accepted put the only item of the key is the new one, all others are old ones of other keys |
| `InMemoryCache.PutItems` | olp-cpp-sdk-core/src/cache/InMemoryCache.cpp:63-81 | after any put every item is an old one or the new one |
| `InMemoryCache.PurgedSpec` | olp-cpp-sdk-core/src/cache/InMemoryCache.cpp:124-147 | if all expiring items are listed, the purge leaves no expired item although it stops at the first unexpired bucket, and all stay listed |
| `CachePolicy.PurgedExactly` | olp-cpp-sdk-core/src/cache/InMemoryCache.cpp:124-147 | a purge takes exactly the items whose key is listed under a time that has passed |
| `CachePolicy.PutPurges` | olp-cpp-sdk-core/src/cache/InMemoryCache.cpp:63-67 | what a put keeps under other keys is not listed under a time that has passed |
| `CachePolicy.PutLeavesNoneExpired` | olp-cpp-sdk-core/src/cache/InMemoryCache.cpp:63-81 | if all expiring items are listed, none has expired after a put |
| `CachePolicy.GetKeepsExactly` | olp-cpp-sdk-core/src/cache/InMemoryCache.cpp:83-97 | a read keeps all items, except that finding the item expired takes all that are listed under its time |
| `InMemoryCache.PutListed` | olp-cpp-sdk-core/src/cache/InMemoryCache.cpp:63-81 | a put keeps all expiring items listed exactly when it does not give a stored item a time under which it is not listed |
| `InMemoryCache.GetListed` | olp-cpp-sdk-core/src/cache/InMemoryCache.cpp:83-97 | a read, with its promotion or purge, keeps all expiring items listed |
| `InMemoryCache.RunListed` | olp-cpp-sdk-core/src/cache/InMemoryCache.cpp:63-163 | over any run of puts, reads and removals without such a put all expiring items are listed |
| `InMemoryCache.PurgeIsComplete` | olp-cpp-sdk-core/src/cache/InMemoryCache.cpp:124-137 | after any such run from the empty cache the purge leaves no expired item |
| `InMemoryCache.RedateExample` | olp-cpp-sdk-core/src/cache/InMemoryCache.cpp:76-78 | a re-dated item survives the purge after it has expired |
| `DiskCache.PrefixRunEnds` | olp-cpp-sdk-core/src/cache/DiskCache.cpp:292-296 | behind the first key past the prefix no key has the prefix |
| `DiskCache.Contiguous` | olp-cpp-sdk-core/src/cache/DiskCache.cpp:292-296 | in sorted order the keys with the prefix are exactly those from the seek position to the first without it |
| `DiskCache.BatchFor` | olp-cpp-sdk-core/src/cache/DiskCache.cpp:279-297 | the seek-and-scan loop collects exactly the keys with the prefix |
| `DiskCache.Disk.RemoveKeysWithPrefix` | olp-cpp-sdk-core/src/cache/DiskCache.cpp:277-307 | exactly the entries without the prefix are kept |
| `DiskCache.Disk.Put` | olp-cpp-sdk-core/src/cache/DiskCache.cpp:246-261 | one entry is written, or nothing and a failure is reported |
| `DiskCache.Disk.Remove` | olp-cpp-sdk-core/src/cache/DiskCache.cpp:271-275 | one key is removed, or nothing and a failure is reported |
| `DiskCache.TiersAgree` | olp-cpp-sdk-core/src/cache/InMemoryCache.cpp:112-122 | both tiers keep exactly the keys without the prefix that they had, so they still agree on a key if they did |
| `Decimals.RoundTrip` | olp-cpp-sdk-core/src/cache/DefaultCache.cpp:31-57 | reading a printed time gives it back |
| `Decimals.DigitsCompare` | olp-cpp-sdk-core/src/cache/DefaultCache.cpp:50-57 | numerals of equal length compare as their numbers do, so the most significant digit is first |
| `Decimals.DigitsAppend` | olp-cpp-sdk-core/src/cache/DefaultCache.cpp:50-57 | a numeral with one more digit behind is ten times the number plus the digit |
| `DefaultCache.TwoTierCache.StoreExpiry` | olp-cpp-sdk-core/src/cache/DefaultCache.cpp:50-57 | the absolute expiry goes under the companion key |
| `DefaultCache.TwoTierCache.GetRemainingExpiryTime` | olp-cpp-sdk-core/src/cache/DefaultCache.cpp:31-42 | the time left according to the companion key, without one no limit |
| `DefaultCache.TwoTierCache.Put` | olp-cpp-sdk-core/src/cache/DefaultCache.cpp:112-136 | the new state of both tiers and the report, with all failure paths |
| `DefaultCache.TwoTierCache.PurgeDiskItem` | olp-cpp-sdk-core/src/cache/DefaultCache.cpp:44-48 | the entry and then its companion are deleted, each as far as the database does it |
| `DefaultCache.TwoTierCache.Get` | olp-cpp-sdk-core/src/cache/DefaultCache.cpp:168-199 | memory first, then disk with expiry check, discard and promotion, whatever the two deletions come to |
| `DefaultCache.TwoTierCache.Remove` | olp-cpp-sdk-core/src/cache/DefaultCache.cpp:238-253 | the key leaves both tiers, the companion key stays |
| `DefaultCache.TwoTierCache.RemoveKeysWithPrefix` | olp-cpp-sdk-core/src/cache/DefaultCache.cpp:255-269 | keys with the prefix leave both tiers |
| `DefaultCache.ReportedExactly` | olp-cpp-sdk-core/src/cache/DefaultCache.cpp:112-136 | a put reports success exactly when, before it, memory would insert (no stored value of the key, room, not expired) and the database takes what is written |
| `DefaultCache.PutExact` | olp-cpp-sdk-core/src/cache/DefaultCache.cpp:112-136 | for every put into an agreeing cache: the key agrees with the last-write reference afterwards exactly when the value left on disk, or in memory, is the same and not later |
| `DefaultCache.OverwriteExact` | olp-cpp-sdk-core/src/cache/DefaultCache.cpp:119-122 | a put over a value in memory is right exactly when the disk tier is absent, lacks the key or has the same value |
| `DefaultCache.PromoteMemory` | olp-cpp-sdk-core/src/cache/DefaultCache.cpp:188-195 | a promotion from disk to memory keeps value and absolute expiry |
| `CacheReads.ReadsExactly` | olp-cpp-sdk-core/src/cache/DefaultCache.cpp:168-199 | a read returns the item in memory up to and at its expiry, else the entry on disk before its companion's time, else nothing |
| `CacheReads.ReadPromotes` | olp-cpp-sdk-core/src/cache/DefaultCache.cpp:188-195 | a value read from disk is in memory afterwards, in front and with its absolute expiry, exactly when it fits |
| `CacheReads.FrontIsRead` | olp-cpp-sdk-core/src/cache/InMemoryCache.cpp:83-97 | the item in front is read up to and at its expiry |
| `CacheReads.PutPromotes` | olp-cpp-sdk-core/src/cache/DefaultCache.cpp:119-122 | a put that has not expired, reported or not, is in front in memory exactly when it fits |
| `CacheReads.MemoryReadKeeps` | olp-cpp-sdk-core/src/cache/DefaultCache.cpp:175-180 | a read that memory answers leaves the disk and the set of items as they were |
| `CacheReads.DiskReadKeeps` | olp-cpp-sdk-core/src/cache/DefaultCache.cpp:182-187 | a read that memory does not answer changes the disk only by discarding an entry whose companion has expired |
| `CacheReads.ReadAfterPut` | olp-cpp-sdk-core/src/cache/DefaultCache.cpp:112-199 | after a successful put and any calls about other keys the value is read exactly until its deadline with a disk tier, and up to it while in memory; without a deadline exactly unless it is out of memory and an older companion has expired |
| `CacheReads.RemovalLeavesOthers` | olp-cpp-sdk-core/src/cache/DefaultCache.cpp:238-269 | a removal leaves all reads of other keys as they were, if it does not reach into their companion |
| `CacheReads.CompanionExample` | olp-cpp-sdk-core/src/cache/DefaultCache.cpp:29-29 | the companion of a key is the key with "::expiry" behind it |
| `DefaultCache.DiscardExact` | olp-cpp-sdk-core/src/cache/DefaultCache.cpp:44-48 | discarding an expired entry with a deadline keeps the disk right in time exactly when the entry went or its companion stayed |
| `DefaultCache.GetExact` | olp-cpp-sdk-core/src/cache/DefaultCache.cpp:168-199 | a read, with purges and promotion, keeps the agreement exactly when it does not delete the companion only |
| `DefaultCache.HitAgrees` | olp-cpp-sdk-core/src/cache/DefaultCache.cpp:168-199 | a hit is the reference's value and, if the tiers are timed, not past its deadline |
| `DefaultCache.RemoveExact` | olp-cpp-sdk-core/src/cache/DefaultCache.cpp:238-253 | a removal agrees with the reference afterwards exactly when the key was not on disk or its deletion worked |
| `DefaultCache.PrefixDisk` | olp-cpp-sdk-core/src/cache/DefaultCache.cpp:255-269 | a key outside a removed prefix is kept right in time exactly when it has no deadline, is not on disk, or the prefix does not reach into its companion |
| `DefaultCache.RemovePrefixExact` | olp-cpp-sdk-core/src/cache/DefaultCache.cpp:255-269 | so for the cache, for keys inside and outside the prefix, whether the deletion worked or not |
| `DefaultCache.StepExact` | olp-cpp-sdk-core/src/cache/DefaultCache.cpp:112-269 | for every call and every key: the key's tiers agree with its reference afterwards exactly when the call was safe for it |
| `DefaultCache.RunExact` | olp-cpp-sdk-core/src/cache/DefaultCache.cpp:112-269 | on every run they agree throughout exactly when every call was safe |
| `DefaultCache.SuccessRunIsSafe` | olp-cpp-sdk-core/src/cache/DefaultCache.cpp:112-269 | runs whose calls about the key report success are safe for it, whatever happens to other keys |
| `DefaultCache.NeverWrong` | olp-cpp-sdk-core/src/cache/DefaultCache.cpp:112-269 | for each key: on every run from a fresh cache that is safe for the key every hit on it returns the value last put since its last removal, whatever calls on other keys did |
| `DefaultCache.NeverTooLate` | olp-cpp-sdk-core/src/cache/DefaultCache.cpp:112-269 | and never after its deadline, on runs that are safe in time |
| `DefaultCache.RightSinceRemoval` | olp-cpp-sdk-core/src/cache/DefaultCache.cpp:238-253 | after any calls, however they failed, a successful removal makes all later hits of a safe run right |
| `DefaultCache.OverwriteReportsFailure` | olp-cpp-sdk-core/src/cache/DefaultCache.cpp:119-122 | a put over a value in memory updates memory, reports failure and leaves the disk as it was |
| `DefaultCache.OverwriteGoesStale` | olp-cpp-sdk-core/src/cache/DefaultCache.cpp:112-199 | after any such put and an eviction the read returns the overwritten value |
| `DefaultCache.PrefixUnexpires` | olp-cpp-sdk-core/src/cache/DefaultCache.cpp:255-269 | after removing a prefix that reaches into the companion key the value on disk is returned at any time |
| `DefaultCache.HalfDiscardUnexpires` | olp-cpp-sdk-core/src/cache/DefaultCache.cpp:44-48 | after a read that deleted only the companion of an expired entry every read returns the entry, at any time |
| `NetworkRequestPriorityQueue.PriorityQueue.Push` | olp-cpp-sdk-core/src/network/NetworkRequestPriorityQueue.cpp:26-29 | the request arrives last |
| `NetworkRequestPriorityQueue.PriorityQueue.Pop` | olp-cpp-sdk-core/src/network/NetworkRequestPriorityQueue.cpp:31-44 | returns and removes the earliest of the most urgent requests, nothing only if there is none |
| `NetworkRequestPriorityQueue.PriorityQueue.RemoveIf` | olp-cpp-sdk-core/src/network/NetworkRequestPriorityQueue.h:63-79 | returns exactly the matches and keeps the arrival order of the rest |
| `NetworkRequestPriorityQueue.PriorityQueue.Size` | olp-cpp-sdk-core/src/network/NetworkRequestPriorityQueue.cpp:46-54 | the number of waiting requests |
| `NetworkRequestPriorityQueue.Best` | olp-cpp-sdk-core/src/network/NetworkRequestPriorityQueue.cpp:31-44 | no waiting request is more urgent, and none that arrived earlier is as urgent |
| `NetworkRequestPriorityQueue.TakeBest` | olp-cpp-sdk-core/src/network/NetworkRequestPriorityQueue.cpp:35-41 | taking it takes the front of its deque and leaves the other deques alone |
| `NetworkRequestPriorityQueue.FilterSwap` | olp-cpp-sdk-core/src/network/NetworkRequestPriorityQueue.h:71-76 | filtering per deque is filtering the whole list |
| `NetworkRequestPriorityQueue.DrainOrder` | olp-cpp-sdk-core/src/network/NetworkRequestPriorityQueue.cpp:31-44 | popping until empty yields all requests of the six priorities in stable descending order |
| `NetworkRequestPriorityQueue.AscendingAll` | olp-cpp-sdk-core/src/network/NetworkRequestPriorityQueue.h:63-79 | what RemoveIf returns is a permutation of the matches |
| `RequestScheduler.SelectGroup` | olp-cpp-sdk-core/src/network/NetworkRequestPriorityQueueDecorator.cpp:138-153 | the last group whose selector takes the request; never none if the default group takes all |
| `RequestScheduler.CountersStep` | olp-cpp-sdk-core/src/network/NetworkRequestPriorityQueueDecorator.cpp:210-258 | every step keeps each counter equal to the requests in flight, those being answered or sent, and the leaked sends, and within the quota |
| `RequestScheduler.PlacesStep` | olp-cpp-sdk-core/src/network/NetworkRequestPriorityQueueDecorator.cpp:58-97 | no step loses or doubles a request |
| `RequestScheduler.CallsStep` | olp-cpp-sdk-core/src/network/NetworkRequestPriorityQueueDecorator.cpp:224-257 | every step keeps callbacks in step with the places behind them |
| `RequestScheduler.ReachableInv` | olp-cpp-sdk-core/src/network/NetworkRequestPriorityQueueDecorator.cpp:55-258 | the invariant holds in every reachable state |
| `RequestScheduler.QuotaHolds` | olp-cpp-sdk-core/src/network/NetworkRequestPriorityQueueDecorator.cpp:62-67 | requests in flight of a group are at most its counter, and that at most its quota |
| `RequestScheduler.NoUnderflow` | olp-cpp-sdk-core/src/network/NetworkRequestPriorityQueueDecorator.cpp:244-255 | a counter that is lowered is above zero |
| `RequestScheduler.OnePlaceOnly` | olp-cpp-sdk-core/src/network/NetworkRequestPriorityQueueDecorator.cpp:55-258 | a request is in at most one place, once, and only if it was submitted |
| `RequestScheduler.SomePlace` | olp-cpp-sdk-core/src/network/NetworkRequestPriorityQueueDecorator.cpp:55-258 | a submitted request is never lost |
| `RequestScheduler.CallbackOnce` | olp-cpp-sdk-core/src/network/NetworkRequestPriorityQueueDecorator.cpp:173-258 | the callback has run exactly once behind it, and not at all before |
| `RequestScheduler.CallbackAtMostOnce` | olp-cpp-sdk-core/src/network/NetworkRequestPriorityQueueDecorator.cpp:173-258 | no callback runs twice or without a submission |
| `RequestScheduler.RestingCounter` | olp-cpp-sdk-core/src/network/NetworkRequestPriorityQueueDecorator.cpp:247-248 | at rest the counter is the number of sends the protocol was not ready for |
| `RequestScheduler.StarvedForever` | olp-cpp-sdk-core/src/network/NetworkRequestPriorityQueueDecorator.cpp:62-67 | a group whose quota has leaked is never served again |
| `RequestScheduler.RestingServed` | olp-cpp-sdk-core/src/network/NetworkRequestPriorityQueueDecorator.cpp:62-67 | a group at rest passes the quota check exactly when its leaked sends are fewer than its quota |
| `RequestScheduler.ServedExactly` | olp-cpp-sdk-core/src/network/NetworkRequestPriorityQueueDecorator.cpp:62-67 | from every reachable state some run serves the group again exactly when that is so |
| `RequestScheduler.StarvationExample` | olp-cpp-sdk-core/src/network/NetworkRequestPriorityQueueDecorator.cpp:247-248 | one unready send starves a group of quota one with its request queued |
| `ServiceOrder.PopServes` | olp-cpp-sdk-core/src/network/NetworkRequestPriorityQueueDecorator.cpp:71-71 | the worker takes a waiting request than which none is more urgent, and none as urgent came earlier, and leaves the others in order |
| `ServiceOrder.ArrivesLast` | olp-cpp-sdk-core/src/network/NetworkRequestPriorityQueueDecorator.cpp:247-248 | a submitted request, and one the protocol was not ready for, arrives behind all that wait |
| `ServiceOrder.CancelTakes` | olp-cpp-sdk-core/src/network/NetworkRequestPriorityQueueDecorator.cpp:173-192 | a cancellation takes exactly the queued requests of the id out of the group, to be called back |
| `ServiceOrder.ServedInOrder` | olp-cpp-sdk-core/src/network/NetworkRequestPriorityQueueDecorator.cpp:55-97 | over every run: while a request waits, none behind it in priority, or in arrival within its priority, is taken |
| `MultiRequestContext.StepInv` | olp-cpp-sdk-dataservice-read/src/MultiRequestContext.h:69-208 | every step keeps the contexts, the map and the calls consistent |
| `MultiRequestContext.ReachableInv` | olp-cpp-sdk-dataservice-read/src/MultiRequestContext.h:69-208 | so do all interleavings |
| `MultiRequestContext.AtMostOnce` | olp-cpp-sdk-dataservice-read/src/MultiRequestContext.h:138-208 | no callback runs twice |
| `MultiRequestContext.OneLiveContext` | olp-cpp-sdk-dataservice-read/src/MultiRequestContext.h:81-101 | a key never has two live contexts |
| `MultiRequestContext.JoinOrStart` | olp-cpp-sdk-dataservice-read/src/MultiRequestContext.h:69-101 | a caller joins the live context of its key, and makes a context to execute only if there is none |
| `MultiRequestContext.ExecutedOnce` | olp-cpp-sdk-dataservice-read/src/MultiRequestContext.h:103-115 | in every interleaving the request of a context is executed at most once, and exactly once when its maker is done |
| `MultiRequestContext.StillToExecute` | olp-cpp-sdk-dataservice-read/src/MultiRequestContext.h:103-115 | no other step, and no cancellation, takes an outstanding execution away |
| `MultiRequestContext.CompletedReachesAll` | olp-cpp-sdk-dataservice-read/src/MultiRequestContext.h:138-164 | a completed context has given its response to all its callers, once |
| `MultiRequestContext.LostExactlyWhenDroppedByAnother` | olp-cpp-sdk-dataservice-read/src/MultiRequestContext.h:166-208 | a caller stays without answer exactly when its context was taken out by another's token |
| `MultiRequestContext.CancellerCancelled` | olp-cpp-sdk-dataservice-read/src/MultiRequestContext.h:121-124 | the canceller on record of a context has used its token in the run |
| `MultiRequestContext.CancelTakesOut` | olp-cpp-sdk-dataservice-read/src/MultiRequestContext.h:166-182 | a token used while its own context is live takes that out of the map, whoever shares it, and nothing else |
| `MultiRequestContext.CancelAnswers` | olp-cpp-sdk-dataservice-read/src/MultiRequestContext.h:184-206 | the callback that follows gives the canceller the prepared response once, and calls nobody else |
| `MultiRequestContext.CancelTooLate` | olp-cpp-sdk-dataservice-read/src/MultiRequestContext.h:174-182 | a token used when no context is live under its key does nothing |
| `MultiRequestContext.AbortedExactly` | olp-cpp-sdk-dataservice-read/src/MultiRequestContext.h:194-199 | the execution is told to stop exactly when the context's only caller cancelled |
| `MultiRequestContext.DroppedForever` | olp-cpp-sdk-dataservice-read/src/MultiRequestContext.h:174-207 | and then in every continuation |
| `MultiRequestContext.CompletionTarget` | olp-cpp-sdk-dataservice-read/src/MultiRequestContext.h:106-108 | an execution completes its own context exactly while that is live, otherwise a newer one of the key |
| `MultiRequestContext.StaleTokenDropsOthers` | olp-cpp-sdk-dataservice-read/src/MultiRequestContext.h:121-124 | a token used late drops the newer context of its key and calls nobody |
| `MultiRequestContext.StaleAnswerExample` | olp-cpp-sdk-dataservice-read/src/MultiRequestContext.h:166-182 | an old execution's answer reaches the callers of a newer context |
| `PendingRequests.PendingTable.GenerateRequestPlaceholder` | olp-cpp-sdk-dataservice-read/src/PendingRequests.cpp:41-46 | a new key is reserved |
| `PendingRequests.PendingTable.Insert` | olp-cpp-sdk-dataservice-read/src/PendingRequests.cpp:48-56 | a token is stored only under a key that is still there |
| `PendingRequests.PendingTable.Remove` | olp-cpp-sdk-dataservice-read/src/PendingRequests.cpp:58-66 | true exactly for the first removal of a key |
| `PendingRequests.PendingTable.CancelPendingRequests` | olp-cpp-sdk-dataservice-read/src/PendingRequests.cpp:30-39 | cancels the token of each pending request once, and leaves the table as it is |
| `PendingRequests.PendingToken` | olp-cpp-sdk-dataservice-read/src/PendingRequests.cpp:48-56 | over every run a pending key has the token last stored under it |
| `PendingRequests.GatedOnce` | olp-cpp-sdk-dataservice-read/src/CatalogClientImpl.cpp:78-232 | however often the repository answers, the user's callback runs once, at the first answer |
| `PendingRequests.PendingExactly` | olp-cpp-sdk-dataservice-read/src/CatalogClientImpl.cpp:78-232 | the pending keys are exactly the unanswered ones, also if the answer comes before the token is stored |
| `PendingRequests.PrefetchStays` | olp-cpp-sdk-dataservice-read/src/CatalogClientImpl.cpp:242-255 | a prefetch key is never removed |
| `PendingRequests.PrefetchUngated` | olp-cpp-sdk-dataservice-read/src/CatalogClientImpl.cpp:242-255 | an answer runs the user's callback again exactly for a prefetch, or for the first time for a gated request |
| `StreamQueue.CountKeys` | olp-cpp-sdk-dataservice-write/src/StreamLayerClientImpl.cpp:237-249 | the commas of a list string are as many as its keys |
| `StreamQueue.SplitFirst` | olp-cpp-sdk-dataservice-write/src/StreamLayerClientImpl.cpp:322-338 | find and erase split off the first key |
| `StreamQueue.KeysRoundTrip` | olp-cpp-sdk-dataservice-write/src/StreamLayerClientImpl.cpp:300-338 | a list string determines its keys |
| `StreamQueue.ListExample` | olp-cpp-sdk-dataservice-write/src/StreamLayerClientImpl.cpp:300-302 | the list of two keys is written with a comma behind each |
| `StreamQueue.TextIsQueue` | olp-cpp-sdk-dataservice-write/src/StreamLayerClientImpl.cpp:261-347 | over any sequence of appends and removals the string is a first-in, first-out queue of the keys |
| `StreamQueue.StreamLayerClient.QueueSize` | olp-cpp-sdk-dataservice-write/src/StreamLayerClientImpl.cpp:237-249 | the length of the queue |
| `StreamQueue.StreamLayerClient.Queue` | olp-cpp-sdk-dataservice-write/src/StreamLayerClientImpl.cpp:261-308 | appends the request, or changes nothing and says why; succeeds exactly for a publishable request and a queue below its maximum; stores the request under its key and nothing else |
| `StreamQueue.StreamLayerClient.PopFromQueue` | olp-cpp-sdk-dataservice-write/src/StreamLayerClientImpl.cpp:310-347 | takes the oldest entry, also when its request is missing from the cache, and removes the request from the cache |
| `StreamQueue.StreamLayerClient.Flush` | olp-cpp-sdk-dataservice-write/src/StreamLayerClientImpl.cpp:361-417 | ends; publishes a prefix of the queue in order, at most the limit; cancelled, it has put the request in hand back, so that none is lost |
| `PersistentQueue.ReadBackExactly` | olp-cpp-sdk-dataservice-write/src/StreamLayerClientImpl.cpp:284-305 | over the two-tier cache, after a write of the list and any calls about other keys, the list read is the one written exactly when it is still in memory, got through to disk, or was on disk before |
| `PersistentQueue.DiskFrozen` | olp-cpp-sdk-dataservice-write/src/StreamLayerClientImpl.cpp:284-305 | while the list stays in memory no number of updates changes the disk |
| `PersistentQueue.StaleQueue` | olp-cpp-sdk-dataservice-write/src/StreamLayerClientImpl.cpp:237-249 | so once it is driven out of memory the size read is that of the list before all updates |
| `PersistentQueue.StaleExample` | olp-cpp-sdk-dataservice-write/src/StreamLayerClientImpl.cpp:237-249 | from a fresh cache, two lists and a value that fills memory: the first list is counted |
| `PersistentQueue.DiskOnlySize` | olp-cpp-sdk-dataservice-write/src/StreamLayerClientImpl.cpp:237-249 | without a memory tier the size read is the length of the queue |
| `PersistentQueue.DiskOnlyQueue` | olp-cpp-sdk-dataservice-write/src/StreamLayerClientImpl.cpp:284-305 | and queueing appends the request, and stores nothing else |
| `PersistentQueue.DiskOnlyPop` | olp-cpp-sdk-dataservice-write/src/StreamLayerClientImpl.cpp:310-347 | and popping takes off the oldest, and removes its request from the cache |
| `PersistentQueue.PopWithoutProgress` | olp-cpp-sdk-dataservice-write/src/StreamLayerClientImpl.cpp:334-338 | if the database refuses the shorter list the size stays and every further pop returns nothing and changes nothing |
| `PersistentQueue.PopProgressExactly` | olp-cpp-sdk-dataservice-write/src/StreamLayerClientImpl.cpp:376-381 | a pop makes the queue shorter exactly when the database takes the shorter list |
| `Sha256Constants.FirstPrimes` | olp-cpp-sdk-authentication/src/Crypto.cpp:44-55 | the 64 primes that the constants come from are exactly the primes up to 311 |
| `Sha256Constants.PrimesAscend` | olp-cpp-sdk-authentication/src/Crypto.cpp:44-55 | in ascending order |
| `Crypto.TableIsStandard` | olp-cpp-sdk-authentication/src/Crypto.cpp:44-55 | each of the 64 table entries is the first 32 bits of the fractional part of the cube root of its prime, as section 4.2.2 of FIPS 180-4 defines |
| `Crypto.InitialIsStandard` | olp-cpp-sdk-authentication/src/Crypto.cpp:102-114 | the initial hash value is that of the square roots of the first eight primes, as section 5.3.3 of FIPS 180-4 defines |
| `Sha256Standard.ChChooses` | olp-cpp-sdk-authentication/src/Crypto.cpp:37-37 | where the first word has a 1 bit the second's bit is chosen, elsewhere the third's |
| `Sha256Standard.MajIsMajority` | olp-cpp-sdk-authentication/src/Crypto.cpp:38-38 | on every bit the majority of the three |
| `Sha256Standard.AddCounts` | olp-cpp-sdk-authentication/src/Crypto.cpp:184-202 | words are added modulo 2^32 |
| `Sha256Standard.WordAtValue` | olp-cpp-sdk-authentication/src/Crypto.cpp:175-179 | a schedule word has the value of its four bytes, the most significant first |
| `Sha256Standard.BigEndianAt` | olp-cpp-sdk-authentication/src/Crypto.cpp:144-145 | the length field has the most significant byte first |
| `Sha256Standard.WordRoundTrip` | olp-cpp-sdk-authentication/src/Crypto.cpp:154-166 | writing a word as bytes and reading it gives it back |
| `Sha256Standard.PadLength` | olp-cpp-sdk-authentication/src/Crypto.cpp:116-152 | a padded message is a whole number of 64-byte blocks |
| `Sha256Standard.PadIsSmallest` | olp-cpp-sdk-authentication/src/Crypto.cpp:125-147 | the zero bits are the smallest number that section 5.1.1 of FIPS 180-4 allows |
| `Sha256Standard.PadRoundTrip` | olp-cpp-sdk-authentication/src/Crypto.cpp:116-152 | the message can be read back from its blocks, so distinct messages have distinct blocks |
| `Crypto.MacrosAgree` | olp-cpp-sdk-authentication/src/Crypto.cpp:36-42 | the shift macros are the rotations of section 4.1.2 of FIPS 180-4 |
| `Crypto.ChoicesAgree` | olp-cpp-sdk-authentication/src/Crypto.cpp:37-38 | the choice and majority macros are the functions of section 4.1.2 of FIPS 180-4 |
| `Crypto.MessageSchedule` | olp-cpp-sdk-authentication/src/Crypto.cpp:172-182 | the array holds the standard's message schedule |
| `Crypto.RoundInPlace` | olp-cpp-sdk-authentication/src/Crypto.cpp:188-202 | one pass over the working variables is one round of the standard |
| `Crypto.Transform` | olp-cpp-sdk-authentication/src/Crypto.cpp:169-209 | one chunk is folded in as section 6.2.2 of FIPS 180-4 defines |
| `Crypto.LastChunks` | olp-cpp-sdk-authentication/src/Crypto.cpp:119-147 | the whole chunks and the one or two chunks built by hand concatenate to the standard's padded message |
| `Crypto.DigestBytes` | olp-cpp-sdk-authentication/src/Crypto.cpp:154-166 | the digest is the eight words, most significant byte first |
| `Crypto.Hash` | olp-cpp-sdk-authentication/src/Crypto.cpp:116-167 | SHA-256 of every message shorter than 2^61 bytes |
| `Crypto.HmacSha256` | olp-cpp-sdk-authentication/src/Crypto.cpp:66-100 | HMAC of section 4 of FIPS 198-1 for every key length |
| `Hrn.Tokenizer.Next` | olp-cpp-sdk-core/src/client/Tokenizer.h:34-48 | the text up to the next separator, and the rest behind it |
| `Hrn.Tokenizer.TakeTail` | olp-cpp-sdk-core/src/client/Tokenizer.h:51-56 | all that is left |
| `Hrn.Parse` | olp-cpp-sdk-core/src/client/HRN.cpp:60-115 | the token-by-token constructor computes the parse defined on cursors |
| `Hrn.ParsePrinted` | olp-cpp-sdk-core/src/client/HRN.cpp:29-51 | parsing a printed name gives an equal name if no colon is in a field that a colon follows |
| `Hrn.ParsedColonFree` | olp-cpp-sdk-core/src/client/HRN.cpp:60-115 | no parsed name has a colon in such a field |
| `Hrn.RoundTrip` | olp-cpp-sdk-core/src/client/HRN.cpp:29-139 | so the round trip holds exactly then, for every service |
| `Hrn.ParseUrl` | olp-cpp-sdk-core/src/client/HRN.cpp:70-76 | a direct URL becomes the catalogue id in the partition "catalog-url" |
| `Hrn.ParseForeign` | olp-cpp-sdk-core/src/client/HRN.cpp:78-78 | a text that starts otherwise gives the null name |
| `Hrn.DataExample` | olp-cpp-sdk-core/src/client/HRN.cpp:34-38 | the printed form of a catalogue layer |
| `Hrn.SchemaExample` | olp-cpp-sdk-core/src/client/HRN.cpp:39-42 | the printed form of a schema |
| `Hrn.PipelineExample` | olp-cpp-sdk-core/src/client/HRN.cpp:43-45 | the printed form of a pipeline |
| `Url.Encode` | olp-cpp-sdk-core/src/utils/Url.cpp:90-113 | the loop on signed characters escapes exactly the bytes that are not unreserved |
| `Url.Decode` | olp-cpp-sdk-core/src/utils/Url.cpp:56-82 | the index loop decodes escapes, plus signs and other characters, also where its bound wraps around |
| `Url.DecodeEncode` | olp-cpp-sdk-core/src/utils/Url.cpp:56-113 | decoding an encoded string gives it back |
| `Url.EncodedIsCanonical` | olp-cpp-sdk-core/src/utils/Url.cpp:90-113 | only unreserved characters and upper-case escapes of other bytes are emitted |
| `Url.EncodeDecode` | olp-cpp-sdk-core/src/utils/Url.cpp:56-113 | exactly those strings are given back when decoded and encoded |
| `Url.HexDigits` | olp-cpp-sdk-core/src/utils/Url.cpp:56-113 | the hexadecimal digits of both cases have their usual values, and the upper-case ones are emitted |
| `Url.DecodeEscape` | olp-cpp-sdk-core/src/utils/Url.cpp:56-82 | an escape in any mixture of cases is decoded to the same byte |
| `Url.DecodeOther` | olp-cpp-sdk-core/src/utils/Url.cpp:56-82 | a plus sign is decoded to a space, and what starts no escape stands for itself |
| `CancellationTokenList.FindTask` | olp-cpp-sdk-dataservice-write/src/CancellationTokenList.cpp:50-55 | in a sorted list the binary search finds the first entry of an id exactly when there is one |
| `CancellationTokenList.TokenList.AddTask` | olp-cpp-sdk-dataservice-write/src/CancellationTokenList.cpp:42-48 | stable insertion; the list stays sorted, ids stay distinct |
| `CancellationTokenList.TokenList.RemoveTask` | olp-cpp-sdk-dataservice-write/src/CancellationTokenList.cpp:50-56 | removes the first entry of the id and keeps the order of the rest |
| `CancellationTokenList.TokenList.CancelAll` | olp-cpp-sdk-dataservice-write/src/CancellationTokenList.cpp:58-84 | ends with an empty list and has cancelled the tokens of the logged entries |
| `CancellationTokenList.EachCancelledOnce` | olp-cpp-sdk-dataservice-write/src/CancellationTokenList.cpp:58-84 | the log has every entry exactly once if and only if no two entries share an id |
| `CancellationTokenList.NeverCancelled` | olp-cpp-sdk-dataservice-write/src/CancellationTokenList.cpp:58-84 | an entry behind another of its id is never cancelled |
| `CancellationTokenList.SharedIdExample` | olp-cpp-sdk-dataservice-write/src/CancellationTokenList.cpp:58-84 | of two entries that share an id the first is cancelled twice |
| `CancellationTokenList.LogInOrder` | olp-cpp-sdk-dataservice-write/src/CancellationTokenList.cpp:58-84 | with distinct ids the tokens are cancelled in the order of the list |

## Left out

- HTTP, JSON and lookup layers, the initialisation chains of the layer clients, automatic flushing and token refresh: plumbing around network, threads and wall-clock time.
- Opening, repairing and clearing the disk cache, its size limit, file system access: the model takes the outcome of a database write as a parameter.
- Times of expiry that overflow the time type, and values that are empty `boost::any` objects.
- Liveness of the scheduler (signals, readiness of the protocol, shutdown): the steps are those that change who holds a request. Every request is taken to have a callback.
- The destructor of the coalescing context: it relies on providers calling back, which the steps allow at any time.
- The futures-based variants of the client calls, and which of the two fetches of a cached-with-update call runs first.
- Flushing while other threads queue or flush: `Flush` is modelled without interference, over a map that loses no list of keys; `PersistentQueue.dfy` says when the two-tier cache is such a map.
- Re-entrant use of the list of tokens from a token's own callback.
- `assert(false)` for an unknown service in debug builds: the model takes the release behaviour.
- PrefetchTiles.EffectiveTileKeys: for minimum levels of at least 1, because the original does not end for 0 (`ParentWalkEnds`); on levels above 31 the original's 32-bit rows and columns overflow, the model's do not.
- Url.Decode: for strings shorter than 2^32 characters, because the original's 32-bit index never reaches the end of longer ones.
- Crypto.Hash: for messages shorter than 2^61 bytes, the limit of the standard's length field.
- Geographic coordinates, Base64, logging, settings and result holders: floating point, library code or no property worth stating.
