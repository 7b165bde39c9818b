/**
 * The task bodies of the decomposed scheduler. Arming them (one-shot cleanup
 * after `ttl`, refresh every `refreshDuration`) is the executor's business; a
 * body runs when the model fires it, with the clock reading `now`.
 */
module Schedulers {
  import opened Wrappers
  import opened Longs
  import opened Entries
  import opened InMemoryCaches
  import opened Loaders
  import opened Policies

  class SchedulerServiceImpl<K(==), V(==)> {
    const ttl: Long
    const refreshDuration: Long

    constructor (ttl: Long, refreshDuration: Long)
      ensures this.ttl == ttl && this.refreshDuration == refreshDuration
    {
      this.ttl := ttl;
      this.refreshDuration := refreshDuration;
    }

    /**
     * The cleanup body: removes `key` when its entry is strictly past its expiry
     * time, and otherwise (no entry, or not yet past) leaves the cache as it is.
     * No other key is touched.
     */
    method RunCleanup(key: K, cache: InMemoryCache<K, V>, now: Long)
      modifies cache
      ensures key in old(cache.cache) && old(cache.cache)[key].IsPastDeadline(now) ==>
                cache.cache == old(cache.cache) - {key}
      ensures key !in old(cache.cache) || !old(cache.cache)[key].IsPastDeadline(now) ==>
                cache.cache == old(cache.cache)
    {
      var entry := cache.Get(key);
      if entry.Some? {
        if now > entry.value.expiryTime {
          cache.Remove(key);
        }
      }
    }

    /**
     * The refresh body: for a key with an entry, loads the key through the data
     * loader; a non-null value different from the cached one replaces it through the
     * two-argument `put`, so the new entry's expiry time is the refresh time. A key
     * without an entry is left alone and the loader is not consulted.
     */
    method RunRefresh(key: K, cache: InMemoryCache<K, V>, dataLoader: BackStoreDataLoader<K, V>,
                      now: Long, threw: bool)
      modifies cache, dataLoader, dataLoader.backingStore
      ensures key !in old(cache.cache) ==>
                && cache.cache == old(cache.cache)
                && dataLoader.backingStore.store == old(dataLoader.backingStore.store)
                && dataLoader.pending == old(dataLoader.pending)
      ensures key in old(cache.cache) ==>
                var loaded := LoadResult(dataLoader.loadingMode, old(dataLoader.backingStore.store),
                                         old(dataLoader.pending), key, threw);
                cache.cache ==
                  if loaded.Some? && loaded.value != old(cache.cache)[key].value
                  then old(cache.cache)[key := CacheEntry(loaded.value, now)]
                  else old(cache.cache)
      ensures key in old(cache.cache) && dataLoader.loadingMode == SYNC ==>
                dataLoader.backingStore.store == old(dataLoader.backingStore.store)
                && dataLoader.pending == old(dataLoader.pending)
      ensures key in old(cache.cache) && dataLoader.loadingMode == ASYNC ==>
                dataLoader.backingStore.store == ApplySaves(old(dataLoader.backingStore.store), old(dataLoader.pending))
                && dataLoader.pending == []
    {
      var entry := cache.Get(key);
      if entry.Some? {
        var newValue := dataLoader.Load(key, threw);
        if newValue.Some? && newValue.value != entry.value.value {
          cache.Put(key, newValue.value, now);
        }
      }
    }
  }

  /** An entry whose expiry time is exactly `now` survives cleanup; one past it does not. */
  method CleanupBoundaryScenario<K(==), V(==)>(k: K, v: V)
  {
    var cache := new InMemoryCache<K, V>(4, Policies.FIXED);
    var scheduler := new SchedulerServiceImpl<K, V>(10, 10);
    cache.PutWithTtl(k, v, 100, 0);
    scheduler.RunCleanup(k, cache, 100);
    assert k in cache.cache;
    scheduler.RunCleanup(k, cache, 101);
    assert k !in cache.cache;
  }
}
