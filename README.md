# TurboCache in Dafny

A model of the TurboCache library, a generic in-process key/value cache written
in Java, and proofs about that model. It covers both shapes of the cache.

- The monolithic facade `TurboCache`. It has four parts:
  - a primary map of entries, each a value with an expiry time;
  - an access-ordered `LinkedHashMap` that bounds the cache to `maxSize` keys;
  - a backing store, written through on `put` and consulted on a miss;
  - one-shot timers: every write arms a cleanup and a refresh, and every fresh hit arms one more cleanup.
- The decomposed pieces:
  - `InMemoryCache`, the primary store, whose expiry time depends on the expiration strategy;
  - `LRUCache`, the recency tracker that names the key it evicts;
  - `BackStoreDataLoader`, which loads by loading mode and saves by write policy. It has a single worker that runs deferred saves and asynchronous loads in order.
  - the task bodies of `SchedulerServiceImpl`;
  - `InMemoryBackingStore` and `CacheEntry`.

Modules:

- one module per Java class: `Entries`, `BackingStores`, `Loaders`, `InMemoryCaches`, `LRUCaches`, `Schedulers`, `TurboCaches`;
- `LinkedMaps`, for `java.util.LinkedHashMap` in access order;
- `Longs`, for Java's 64-bit `long` with wrap-around;
- `Policies`, for the configuration enums;
- `Wrappers`, for null and thrown exceptions.

Each class whose fields the Java code updates is a Dafny `class`, and its methods state their new state.

The facade's state changes are also specified by pure functions on the pair of its two maps (`TurboCaches.Tables`). The lemmas about those functions prove the facade's invariant:

- every key of the primary map is tracked;
- the recency map holds at most `maxSize` keys, so `size()` never exceeds `maxSize`;
- the key a full `put` evicts is the least recently used one, measured against an explicit access history (`LinkedMaps.LastUse`, `LinkedMaps.RecencyOrdered`).

Outside inputs become parameters:

- The clock is the `now` argument.
- The facade's loader function is represented by its outcome, `TurboCaches.Fetch`: a value, null, or a thrown exception.
- The decomposed loader's failure is the `threw` argument.
- The expiry callback's invocations are returned as the `notified` sequence.

A timer body runs when the model fires it: `FireCleanup` and `FireRefresh`. A timer may fire only once its due time has passed.

Behaviour the model follows from the code:

- An expired entry found by `get` is dropped from the primary map, but not from the recency map, and the backing store is consulted. The cache does not just return null.
- `put` into a full recency map evicts the eldest key even when the key being written is already present (`TurboCaches.PutAtCapacityEvictsEldest`). `LRUCache.evictIfRequired` evicts only for a new key.
- The decomposed refresh writes through the two-argument `InMemoryCache.put`, whose entry expires at the refresh time itself (`InMemoryCaches.TwoArgumentPutIsNeverFresh`).
- The facade's cleanup removes an entry at its expiry time. The decomposed cleanup removes it only strictly after (`Entries.PastDeadlineIsStricter`).

## Model

| member | source | states |
|---|---|---|
| `Wrappers.Get` | src/backingstore/InMemoryBackingStore.java:10-12 | a `Map.get` returns a value exactly when the key is mapped, and that value is the mapped one |
| `Longs.Add` | src/cache/TurboCache.java:165 | `now + ttl` on longs equals the mathematical sum modulo 2^64, and equals it exactly when the sum fits in 64 bits |
| `Entries.ConstructorStoresArguments` | src/cache/CacheEntry.java:12-15 | an entry holds exactly the value and expiry time it was built with |
| `Entries.CacheEntry.IsFresh` | src/cache/TurboCache.java:194 | the readers' test: an entry is served strictly before its expiry time |
| `Entries.CacheEntry.IsExpired` | src/cache/TurboCache.java:234 | the facade's cleanup test: an entry is expired at or after its expiry time |
| `Entries.CacheEntry.IsPastDeadline` | src/scheduler/SchedulerServiceImpl.java:38 | the decomposed cleanup test: an entry is removed only strictly after its expiry time |
| `Entries.ExpiredIsNotFresh` | src/cache/TurboCache.java:231-242 | the facade's cleanup test (`now >= expiry`) is exactly the negation of the readers' freshness test (`now < expiry`) |
| `Entries.PastDeadlineIsStricter` | src/scheduler/SchedulerServiceImpl.java:33-44 | the decomposed cleanup test (`now > expiry`) implies expiry, and at `now == expiry` an entry is neither fresh nor removed |
| `LinkedMaps.LinkedMap.Size` | src/cache/TurboCache.java:154 | `size()` is the length of the iteration order; `LinkedMaps.SizeIsMappingCount` proves it is the number of mappings |
| `LinkedMaps.LinkedMap.ContainsKey` | src/cache/LRUCache.java:37 | on a well-formed map, a key is contained exactly when the iteration order lists it |
| `LinkedMaps.LinkedMap.Eldest` | src/cache/TurboCache.java:155-157 | `keySet().iterator().next()` is a key of the iteration order, and a mapped key of a well-formed map |
| `LinkedMaps.DistinctAt` | src/cache/TurboCache.java:122 | the iteration order lists no key twice: distinct positions hold distinct keys |
| `LinkedMaps.LinkedMap.Put` | src/cache/TurboCache.java:162 | access-order `put`: the key maps to the value and becomes last in iteration order, other keys keep their relative order, size grows only for a new key |
| `LinkedMaps.LinkedMap.Remove` | src/cache/TurboCache.java:213 | `remove`: the key is unmapped, other keys keep their order, size drops only for a present key |
| `LinkedMaps.LinkedMap.RemoveEldest` | src/cache/TurboCache.java:155-158 | removing the first key of the iteration order drops the head of the order |
| `LinkedMaps.LinkedMap.PutBounded` | src/cache/TurboCache.java:122-126 | `put` under the `removeEldestEntry` hook `size() > cap`: the bound is kept, the written key is present and most recent when `cap >= 1`, only the eldest key of a full map can be lost, only when a new key arrives, and every surviving key keeps its value |
| `LinkedMaps.LinkedMap.Clear` | src/cache/TurboCache.java:222 | `clear` leaves a well-formed empty map |
| `LinkedMaps.EmptyMap` | src/cache/TurboCache.java:122 | a new map is well formed and empty |
| `LinkedMaps.LastUse` | src/cache/TurboCache.java:122 | the position of the last access of a key in a history, or -1 when it was never accessed; no later position holds the key |
| `LinkedMaps.EmptyIsRecencyOrdered` | src/cache/TurboCache.java:122 | a new access-ordered map is sorted by last use for any history |
| `LinkedMaps.PutKeepsRecencyOrder` | src/cache/TurboCache.java:162 | `put` of a key keeps the iteration order sorted by last use, with the history extended by that key |
| `LinkedMaps.RemoveKeepsRecencyOrder` | src/cache/TurboCache.java:213 | `remove` keeps the iteration order sorted by last use |
| `LinkedMaps.PutBoundedKeepsRecencyOrder` | src/cache/TurboCache.java:122-126 | a bounded `put`, including its eviction of the eldest, keeps the order sorted by last use |
| `LinkedMaps.EldestIsLeastRecentlyUsed` | src/cache/TurboCache.java:155-157 | the first key of the iteration order was used less recently than every other key |
| `LinkedMaps.RecencyAt` | src/cache/TurboCache.java:122 | two keys in iteration order were last used in that order |
| `LinkedMaps.SizeIsMappingCount` | src/cache/TurboCache.java:154 | `size()` equals the number of mappings |
| `LinkedMaps.RemoveClosesGap` | src/cache/TurboCache.java:158 | removing the key at position i leaves the order with exactly that position cut out |
| `BackingStores.InMemoryBackingStore.constructor` | src/backingstore/InMemoryBackingStore.java:7 | a new store is empty |
| `BackingStores.InMemoryBackingStore.Load` | src/backingstore/InMemoryBackingStore.java:10-12 | `load` returns the stored value, or null exactly when the key is absent |
| `BackingStores.InMemoryBackingStore.Save` | src/backingstore/InMemoryBackingStore.java:15-17 | `save` maps the key to the value and leaves all other keys unchanged |
| `BackingStores.InMemoryBackingStore.Remove` | src/backingstore/InMemoryBackingStore.java:20-22 | `remove` unmaps the key only |
| `BackingStores.InMemoryBackingStore.GetAllEntries` | src/backingstore/InMemoryBackingStore.java:25-27 | the copy has exactly the store's keys and values |
| `BackingStores.LoadAfterSave` | src/backingstore/InMemoryBackingStore.java:10-17 | a load after a save of the same key returns the saved value |
| `BackingStores.OtherKeysUnaffected` | src/backingstore/InMemoryBackingStore.java:10-22 | a save or remove of one key does not change a load of another |
| `BackingStores.LoadAfterRemove` | src/backingstore/InMemoryBackingStore.java:10-22 | a load after a remove of the same key returns null |
| `Loaders.LastQueued` | src/loader/BackStoreDataLoader.java:61-64 | there is a last queued save of a key exactly when some queued save has that key |
| `Loaders.ApplySaves` | src/loader/BackStoreDataLoader.java:62-64 | the store after the worker runs the queued saves in order holds exactly the old keys plus the queued keys |
| `Loaders.LoadResult` | src/loader/BackStoreDataLoader.java:30-56 | SYNC reads the store; a failed ASYNC load is null; a successful one returns the key's last queued save, or else the stored value |
| `Loaders.ApplySavesSnoc` | src/loader/BackStoreDataLoader.java:61-64 | running one more queued save after a queue updates the store the queue left by that save |
| `Loaders.LastQueuedSaveWins` | src/loader/BackStoreDataLoader.java:61-64 | after the worker drains its queue, each key holds the value of its last queued save, or its old stored value when no save touched it |
| `Loaders.AsyncLoadSeesQueuedSave` | src/loader/BackStoreDataLoader.java:39-49 | an asynchronous load that does not fail returns the value most recently saved under WRITE_BACK, since the single worker runs the save first |
| `Loaders.BackStoreDataLoader.constructor` | src/loader/BackStoreDataLoader.java:25-28 | the modes are stored, the loader's own store is new and empty, nothing is queued |
| `Loaders.BackStoreDataLoader.Load` | src/loader/BackStoreDataLoader.java:30-37 | `load` returns the result for its loading mode; SYNC changes nothing, ASYNC drains the queued saves first |
| `Loaders.BackStoreDataLoader.LoadSync` | src/loader/BackStoreDataLoader.java:51-56 | returns the store's value in SYNC mode and null otherwise |
| `Loaders.BackStoreDataLoader.LoadAsync` | src/loader/BackStoreDataLoader.java:39-49 | in ASYNC mode the queued saves run, then the store's value (or null on failure) is returned; otherwise null with nothing changed |
| `Loaders.BackStoreDataLoader.RunNextSave` | src/loader/BackStoreDataLoader.java:62-64 | the worker runs the oldest queued save against the store |
| `Loaders.BackStoreDataLoader.RunQueuedSaves` | src/loader/BackStoreDataLoader.java:62-64 | the worker runs every queued save in submission order, leaving the queue empty |
| `Loaders.BackStoreDataLoader.Save` | src/loader/BackStoreDataLoader.java:58-69 | WRITE_THROUGH saves at once, WRITE_BACK queues the save, any other policy throws "Invalid write policy" and changes nothing |
| `InMemoryCaches.TtlIsRelative` | src/cache/InMemoryCache.java:32-35 | under TTL an entry lives exactly `ttl` past the write when no overflow occurs |
| `InMemoryCaches.ExpiryFor` | src/cache/InMemoryCache.java:33-36 | FIXED takes the argument as the expiry time; TTL adds it to the clock with long wrap-around |
| `InMemoryCaches.FixedIgnoresClock` | src/cache/InMemoryCache.java:35-36 | under FIXED the expiry time is the argument itself, whenever the write happens |
| `InMemoryCaches.TwoArgumentPutIsNeverFresh` | src/cache/InMemoryCache.java:28-30 | an entry written by the two-argument `put` is already not fresh at its own write time |
| `InMemoryCaches.InMemoryCache.constructor` | src/cache/InMemoryCache.java:22-26 | for a capacity of at least 0 (a negative one throws), the capacity hint and the strategy are stored, and the map is empty |
| `InMemoryCaches.InMemoryCache.Put` | src/cache/InMemoryCache.java:28-30 | the key maps to an entry expiring at the current time; other keys are unchanged |
| `InMemoryCaches.InMemoryCache.PutWithTtl` | src/cache/InMemoryCache.java:32-39 | the key maps to an entry whose expiry time is chosen by the strategy; other keys are unchanged |
| `InMemoryCaches.InMemoryCache.Get` | src/cache/InMemoryCache.java:41-43 | returns the stored entry, or null exactly when the key is absent |
| `InMemoryCaches.InMemoryCache.Remove` | src/cache/InMemoryCache.java:45-47 | unmaps the key only |
| `InMemoryCaches.InMemoryCache.ClearCache` | src/cache/InMemoryCache.java:49-51 | empties the map |
| `InMemoryCaches.InMemoryCache.Size` | src/cache/InMemoryCache.java:53-55 | returns the number of keys |
| `LRUCaches.LRUCache.constructor` | src/cache/LRUCache.java:22-31 | a new tracker is empty, keeps its bound and is trivially ordered by recency |
| `LRUCaches.LRUCache.EvictIfRequired` | src/cache/LRUCache.java:33-52 | a new key arriving at a full tracker evicts and returns the least recently used key (or throws `NoSuchElementException` at capacity 0); otherwise null. The key is then the most recent, and the bound and recency order are kept |
| `LRUCaches.LRUCache.Put` | src/cache/LRUCache.java:54-63 | only a non-null, fresh entry is recorded, as a bounded access-order `put` that keeps the recency order |
| `LRUCaches.LRUCache.Remove` | src/cache/LRUCache.java:65-72 | unmaps the key, keeping the others' order |
| `LRUCaches.LRUCache.ClearCache` | src/cache/LRUCache.java:74-81 | empties the tracker |
| `Schedulers.SchedulerServiceImpl.constructor` | src/scheduler/SchedulerServiceImpl.java:26-30 | the two durations are stored |
| `Schedulers.SchedulerServiceImpl.RunCleanup` | src/scheduler/SchedulerServiceImpl.java:33-44 | the cleanup body removes the key exactly when its entry is strictly past its expiry time, and touches no other key |
| `Schedulers.SchedulerServiceImpl.RunRefresh` | src/scheduler/SchedulerServiceImpl.java:46-61 | the refresh body, for a cached key, loads it and replaces the entry exactly when the loaded value is non-null and different; an uncached key leaves cache and loader untouched |
| `TurboCaches.Arm` | src/cache/TurboCache.java:231-257 | a timer armed with a non-negative delay is due that many milliseconds later, and one with a negative delay is due at once |
| `TurboCaches.AsyncResult` | src/cache/TurboCache.java:259-267 | a loader that returned yields exactly its result (a value or null), and a failed loader yields null |
| `TurboCaches.PutTimers` | src/cache/TurboCache.java:173-174 | a `put` arms exactly two timers for its key, a cleanup due after `ttl` and a refresh due after `refreshDuration` |
| `TurboCaches.WriteThrough` | src/cache/TurboCache.java:169-171 | only WRITE_THROUGH writes the store, mapping the key to the value and keeping every other key |
| `TurboCaches.MakeRoom` | src/cache/TurboCache.java:154-160 | below capacity nothing changes; a full recency map loses exactly its eldest key from both maps, which leaves room for one more key, and every other entry and tracked key is kept |
| `TurboCaches.PutTables` | src/cache/TurboCache.java:153-166 | after the `put` steps the key holds the new entry and is tracked, the bound is kept, and no other key is added |
| `TurboCaches.TouchTables` | src/cache/TurboCache.java:195-197 | a hit leaves the primary map as it is and makes the key the most recent without changing the tracked keys |
| `TurboCaches.DropEntry` | src/cache/TurboCache.java:202 | a miss removes exactly the key from the primary map and leaves the recency map as it is |
| `TurboCaches.RemoveTables` | src/cache/TurboCache.java:211-213 | the key leaves both maps, every other entry is kept, and the order of the others is unchanged |
| `TurboCaches.InvBoundsSize` | src/cache/TurboCache.java:226-229 | under the invariant the primary map never holds more than `maxSize` entries |
| `TurboCaches.PutKeepsInv` | src/cache/TurboCache.java:152-166 | `put` keeps the invariant |
| `TurboCaches.PutPostcondition` | src/cache/TurboCache.java:152-166 | after `put` the key holds the new entry and is the most recent, and every other key keeps its entry unless it was the evicted eldest |
| `TurboCaches.PutAtCapacityEvictsEldest` | src/cache/TurboCache.java:154-161 | a `put` into a full recency map removes the eldest key from both maps, whether or not the written key was present |
| `TurboCaches.PutAtCapacityKeepsOtherTracked` | src/cache/TurboCache.java:154-162 | a `put` into a full recency map leaves exactly the old tracked keys minus the eldest, plus the written key, including keys a miss dropped from the primary map |
| `TurboCaches.PutBelowCapacityKeepsAll` | src/cache/TurboCache.java:152-166 | below capacity a `put` only adds the key to both maps |
| `TurboCaches.TouchKeepsInv` | src/cache/TurboCache.java:194-199 | a fresh hit keeps the invariant and the primary map, and makes the key the most recent |
| `TurboCaches.DropKeepsInv` | src/cache/TurboCache.java:201-202 | a miss removes the key from the primary map only and keeps the invariant |
| `TurboCaches.PutTablesKeepsRecencyOrder` | src/cache/TurboCache.java:152-166 | `put` keeps the recency map sorted by last use with the key the most recent, and what a full map evicts is its least recently used key |
| `TurboCaches.TouchKeepsRecencyOrder` | src/cache/TurboCache.java:195-197 | a fresh hit counts as a use: the recency map stays sorted by last use with the key the most recent |
| `TurboCaches.RemoveKeepsInv` | src/cache/TurboCache.java:209-216 | `remove` keeps the invariant and takes the key out of both maps |
| `TurboCaches.TurboCache.constructor` | src/cache/TurboCache.java:104-140 | the configuration is stored, both maps are empty, no timer is armed, and the invariant holds |
| `TurboCaches.TurboCache.IsHit` | src/cache/TurboCache.java:194 | `get` serves a key from the primary map exactly when it has an entry whose expiry time is still ahead of the clock |
| `TurboCaches.TurboCache.Put` | src/cache/TurboCache.java:152-175 | `put` moves the maps as the `put` step function says, writes the store only under WRITE_THROUGH, arms a cleanup after `ttl` and a refresh after `refreshDuration`, and keeps the invariant |
| `TurboCaches.TurboCache.StoreEntry` | src/cache/TurboCache.java:153-166 | the map steps of `put`: eviction at capacity, then recording and storing the entry |
| `TurboCaches.TurboCache.Get` | src/cache/TurboCache.java:191-206 | a fresh hit returns the cached value, touches the key and re-arms its cleanup; anything else drops the entry and falls back to the backing store |
| `TurboCaches.TurboCache.FallbackPost` | src/cache/TurboCache.java:270-283 | the state `getFromBackStore` leaves: ASYNC returns the loader's result and changes nothing; SYNC returns the store's value and, when non-null, applies `put` with it |
| `TurboCaches.TurboCache.GetFromBackStore` | src/cache/TurboCache.java:270-283 | ASYNC returns the loader's result and caches nothing; SYNC returns the store's value and `put`s it back when it is non-null |
| `TurboCaches.TurboCache.LoadAsync` | src/cache/TurboCache.java:259-267 | returns the loader function's result, or null when it threw |
| `TurboCaches.TurboCache.Remove` | src/cache/TurboCache.java:209-216 | the key leaves both maps, the backing store keeps it, and the invariant holds |
| `TurboCaches.TurboCache.ClearCache` | src/cache/TurboCache.java:218-224 | both maps are emptied |
| `TurboCaches.TurboCache.Size` | src/cache/TurboCache.java:226-229 | returns the number of primary entries, which is never above `maxSize` |
| `TurboCaches.TurboCache.FireCleanup` | src/cache/TurboCache.java:231-242 | a fired cleanup removes the key from both maps and notifies the callback exactly when its entry is present and expired; otherwise only the timer goes |
| `TurboCaches.TurboCache.FireRefresh` | src/cache/TurboCache.java:244-257 | a fired refresh of a cached key `put`s the loaded value exactly when it is non-null and different from the cached one; otherwise only the timer goes |
| `TurboCacheScenarios.ReadThroughScenario` | src/cache/TurboCache.java:191-206 | under SYNC and WRITE_THROUGH, a read at any time from a state where the cache agrees with the store returns the store's value for the key (null when it has none), keeps that agreement and leaves the store unchanged |

## Left out

- Concurrency is not modelled: the locks, `synchronized` blocks, `ConcurrentHashMap` and executor threads. Each operation is one atomic step, and the single loader worker is a FIFO queue.
- Timers are never cancelled, because the source has no cancellation. Firing a timer is an explicit step, and the executors' own threads and clocks are not modelled.
- Periodic re-arming by `scheduleAtFixedRate` in `SchedulerServiceImpl.scheduleRefresh` is not modelled. Only the body of the refresh task is modelled, and so is the body of the cleanup task; their arming is not.
- Logging, `System.out` messages and `Serializable` carry no behaviour, so they are dropped.
- Null keys and null values are not modelled. A null value is represented only as the result of a load.
- `TurboCache.shutdown()` is not modelled. After it, `cleaner.schedule` throws `RejectedExecutionException`, so every later `put` and every fresh `get` would throw after it has already updated the maps (and, for `put`, the backing store); the model has no shut-down state and keeps arming timers.
- The unused `refreshScheduler` field is not modelled.
- `TurboCaches.TurboCache.constructor`: it requires `maxSize >= 1`. A negative size makes the map constructors throw `IllegalArgumentException`. At `maxSize == 0` the recency map stays empty while the primary map grows without bound, which breaks the invariant every operation relies on.
- `LRUCaches.LRUCache.constructor`: it requires a capacity of at least 0. A negative capacity makes the `LinkedHashMap` constructor (LRUCache.java:25) throw `IllegalArgumentException`; the model does not represent that exception.
- `InMemoryCaches.InMemoryCache.constructor`: it requires a capacity of at least 0. A negative capacity makes the `ConcurrentHashMap` constructor (InMemoryCache.java:25) throw `IllegalArgumentException`; the model does not represent that exception.
- `TurboCaches.TurboCache.constructor`: it requires the LRU eviction policy and the TTL expiration strategy. Otherwise the recency map or the cleanup scheduler is null, and `put` dereferences null.
- The branches of the loader's `load`, `loadAsync` and `loadSync` for a loading mode outside `SYNC | ASYNC` cannot occur, and neither can a strategy outside `TTL | FIXED` in `InMemoryCache.put`.
- An interrupted thread waiting on a future is treated the same as a failed load.
- The recency history is kept as ghost state in `LRUCache` only. For the facade, the least-recently-used property is stated on the step functions of `put` and of a fresh hit, by `TurboCaches.PutTablesKeepsRecencyOrder` and `TurboCaches.TouchKeepsRecencyOrder`; the class itself carries no history.
- `SchedulerServiceImpl` calls `getExpiryTime()` and `getValue()` on a `CacheEntry`, which declares neither method. The model reads the two fields instead.
- The configuration loader and the demonstration `Main` are not part of this model.
