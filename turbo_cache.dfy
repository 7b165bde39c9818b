/**
 * The monolithic cache facade: a primary map of entries and an access-ordered
 * recency map bounded by `maxSize`, a backing store written through on `put`
 * and consulted on a miss, and per-key cleanup and refresh timers armed on the
 * scheduler. The clock is the `now` argument; each armed timer's body is a
 * method the model fires.
 */
module TurboCaches {
  import opened Wrappers
  import opened Longs
  import opened Policies
  import opened Entries
  import opened LinkedMaps
  import opened BackingStores

  /** What the external asynchronous loader function did when it was applied to a key. */
  datatype Fetch<V> = Returned(result: Option<V>) | Threw

  /** The two task bodies the facade hands to its scheduler. */
  datatype TaskKind = CleanupTask | RefreshTask

  /** An armed one-shot timer: its body, its key, and the earliest time at which it fires. */
  datatype Timer<K> = Timer(kind: TaskKind, key: K, due: int)

  /** `schedule(task, delay)` at `now`: a negative delay fires at once. */
  function Arm<K>(kind: TaskKind, key: K, now: Long, delay: Long): (t: Timer<K>)
    ensures t.kind == kind && t.key == key
    ensures t.due >= now as int && (delay >= 0 ==> t.due == now as int + delay as int)
    ensures delay < 0 ==> t.due == now as int
  {
    Timer(kind, key, now as int + if delay < 0 then 0 else delay as int)
  }

  /** The timers one `put` arms: a cleanup after `ttl` and a refresh after `refreshDuration`. */
  function PutTimers<K>(key: K, now: Long, ttl: Long, refreshDuration: Long): (r: seq<Timer<K>>)
    ensures |r| == 2 && r[0].kind == CleanupTask && r[1].kind == RefreshTask
    ensures r[0].key == key && r[1].key == key
    ensures ttl >= 0 ==> r[0].due == now as int + ttl as int
    ensures refreshDuration >= 0 ==> r[1].due == now as int + refreshDuration as int
  {
    [Arm(CleanupTask, key, now, ttl), Arm(RefreshTask, key, now, refreshDuration)]
  }

  /** `loadAsync`: the loader function's result, or null when the future failed. */
  function AsyncResult<V>(f: Fetch<V>): (r: Option<V>)
    ensures f.Threw? ==> r == None
    ensures r.Some? ==> f == Returned(r)
    ensures f.Returned? ==> r == f.result
  {
    match f
    case Returned(v) => v
    case Threw => None
  }

  /** The backing store after a `put` of `key`: only WRITE_THROUGH writes it. */
  function WriteThrough<K, V>(policy: WritePolicy, store: map<K, V>, key: K, value: V): (r: map<K, V>)
    ensures policy == WRITE_THROUGH ==> key in r && r[key] == value
    ensures policy != WRITE_THROUGH ==> r == store
    ensures r.Keys <= store.Keys + {key}
    ensures forall k :: k in store && k != key ==> k in r && r[k] == store[k]
  {
    if policy == WRITE_THROUGH then store[key := value] else store
  }

  /** The facade's two structures at one moment. */
  datatype Tables<K(==), V> = Tables(cache: map<K, CacheEntry<V>>, lru: LinkedMap<K, V>)

  /**
   * The facade's invariant: the recency map is well formed and holds at most
   * `maxSize` keys, and every key of the primary map is in the recency map.
   */
  ghost predicate Inv<K, V>(t: Tables<K, V>, maxSize: int) {
    && maxSize >= 1
    && t.lru.Valid()
    && t.lru.Size() <= maxSize
    && forall k :: k in t.cache ==> t.lru.ContainsKey(k)
  }

  /** The first step of `put`: at capacity the eldest key leaves both structures. */
  function MakeRoom<K, V>(t: Tables<K, V>, maxSize: int): (r: Tables<K, V>)
    requires t.lru.Valid() && maxSize >= 1
    ensures r.lru.Valid() && (t.lru.Size() <= maxSize ==> r.lru.Size() < maxSize)
    ensures t.lru.Size() >= maxSize ==>
              t.lru.Eldest() !in r.cache && !r.lru.ContainsKey(t.lru.Eldest())
    ensures forall k :: k in t.cache && !(t.lru.Size() >= maxSize && k == t.lru.Eldest()) ==>
              k in r.cache && r.cache[k] == t.cache[k]
    ensures r.cache.Keys <= t.cache.Keys
    ensures t.lru.Size() < maxSize ==> r == t
    ensures t.lru.Size() >= maxSize ==> r.lru.values.Keys == t.lru.values.Keys - {t.lru.Eldest()}
  {
    if t.lru.Size() >= maxSize then
      var eldest := t.lru.Eldest();
      Tables(t.cache - {eldest}, t.lru.Remove(eldest))
    else t
  }

  /** `put(key, value)` on the two structures: make room, then record and store the entry. */
  function PutTables<K, V>(t: Tables<K, V>, key: K, value: V, expiry: Long, maxSize: int): (r: Tables<K, V>)
    requires t.lru.Valid() && maxSize >= 1
    ensures key in r.cache && r.cache[key] == CacheEntry(value, expiry)
    ensures r.lru.Valid() && r.lru.ContainsKey(key)
    ensures t.lru.Size() <= maxSize ==> r.lru.Size() <= maxSize
    ensures r.cache.Keys <= t.cache.Keys + {key}
  {
    var r := MakeRoom(t, maxSize);
    Tables(r.cache[key := CacheEntry(value, expiry)], r.lru.PutBounded(key, value, maxSize))
  }

  /** A fresh hit of `get`: the recency map records the access; the entry is left as it is. */
  function TouchTables<K, V>(t: Tables<K, V>, key: K, value: V, maxSize: int): (r: Tables<K, V>)
    requires t.lru.Valid()
    ensures r.cache == t.cache && r.lru.Valid()
    ensures maxSize >= 1 ==> r.lru.ContainsKey(key) && r.lru.order[|r.lru.order| - 1] == key
    ensures t.lru.ContainsKey(key) ==> r.lru.values.Keys == t.lru.values.Keys
  {
    Tables(t.cache, t.lru.PutBounded(key, value, maxSize))
  }

  /** A miss of `get`: the entry leaves the primary map only. */
  function DropEntry<K, V>(t: Tables<K, V>, key: K): (r: Tables<K, V>)
    ensures key !in r.cache && r.lru == t.lru
    ensures forall k :: k in t.cache && k != key ==> k in r.cache && r.cache[k] == t.cache[k]
    ensures r.cache.Keys == t.cache.Keys - {key}
  {
    Tables(t.cache - {key}, t.lru)
  }

  /** `remove(key)` and an expiring cleanup: the key leaves both structures. */
  function RemoveTables<K, V>(t: Tables<K, V>, key: K): (r: Tables<K, V>)
    requires t.lru.Valid()
    ensures key !in r.cache && !r.lru.ContainsKey(key) && r.lru.Valid()
    ensures forall k :: k in t.cache && k != key ==> k in r.cache && r.cache[k] == t.cache[k]
    ensures r.lru.order == Without(t.lru.order, key)
  {
    Tables(t.cache - {key}, t.lru.Remove(key))
  }

  /** The primary map never holds more entries than `maxSize`. */
  lemma InvBoundsSize<K, V>(t: Tables<K, V>, maxSize: int)
    requires Inv(t, maxSize)
    ensures |t.cache| <= maxSize
  {
    SizeIsMappingCount(t.lru);
    assert t.cache.Keys <= t.lru.values.Keys;
    assert t.lru.values.Keys == t.cache.Keys + (t.lru.values.Keys - t.cache.Keys);
  }

  /** `put` keeps the invariant. */
  lemma PutKeepsInv<K, V>(t: Tables<K, V>, key: K, value: V, expiry: Long, maxSize: int)
    requires Inv(t, maxSize)
    ensures Inv(PutTables(t, key, value, expiry, maxSize), maxSize)
  {
    var r := MakeRoom(t, maxSize);
    assert r.lru.Valid() && r.lru.Size() < maxSize;
    assert forall k :: k in r.cache ==> r.lru.ContainsKey(k);
  }

  /**
   * After `put(key, value)` the key maps to the new entry, is the most recently
   * used key, and every other key keeps the entry it had, unless it was the eldest
   * key of a full recency map.
   */
  lemma PutPostcondition<K, V>(t: Tables<K, V>, key: K, value: V, expiry: Long, maxSize: int)
    requires Inv(t, maxSize)
    ensures var r := PutTables(t, key, value, expiry, maxSize);
      && r.cache[key] == CacheEntry(value, expiry)
      && r.lru.ContainsKey(key) && r.lru.order[|r.lru.order| - 1] == key
      && forall k :: k in t.cache && k != key && !(t.lru.Size() >= maxSize && k == t.lru.Eldest()) ==>
           k in r.cache && r.cache[k] == t.cache[k]
  {
  }

  /**
   * A `put` into a full recency map evicts its eldest key from both structures,
   * whether or not the key being written is already present.
   */
  lemma PutAtCapacityEvictsEldest<K, V>(t: Tables<K, V>, key: K, value: V, expiry: Long, maxSize: int)
    requires Inv(t, maxSize) && t.lru.Size() >= maxSize
    requires t.lru.Eldest() != key
    ensures var r := PutTables(t, key, value, expiry, maxSize);
      t.lru.Eldest() !in r.cache && !r.lru.ContainsKey(t.lru.Eldest())
  {
  }

  /**
   * A `put` into a full recency map drops only its eldest key from the tracked
   * keys, including keys a miss has already dropped from the primary map.
   */
  lemma PutAtCapacityKeepsOtherTracked<K, V>(t: Tables<K, V>, key: K, value: V, expiry: Long, maxSize: int)
    requires Inv(t, maxSize) && t.lru.Size() >= maxSize
    ensures PutTables(t, key, value, expiry, maxSize).lru.values.Keys == (t.lru.values.Keys - {t.lru.Eldest()}) + {key}
  {
  }

  /** Below capacity a `put` evicts nothing. */
  lemma PutBelowCapacityKeepsAll<K, V>(t: Tables<K, V>, key: K, value: V, expiry: Long, maxSize: int)
    requires Inv(t, maxSize) && t.lru.Size() < maxSize
    ensures var r := PutTables(t, key, value, expiry, maxSize);
      && r.cache.Keys == t.cache.Keys + {key}
      && r.lru.values.Keys == t.lru.values.Keys + {key}
  {
  }

  /**
   * A fresh hit keeps the invariant, leaves the primary map and the set of tracked
   * keys as they are, and makes the key the most recently used one.
   */
  lemma TouchKeepsInv<K, V>(t: Tables<K, V>, key: K, value: V, maxSize: int)
    requires Inv(t, maxSize) && key in t.cache
    ensures var r := TouchTables(t, key, value, maxSize);
      && Inv(r, maxSize)
      && r.cache == t.cache
      && r.lru.values.Keys == t.lru.values.Keys
      && r.lru.order[|r.lru.order| - 1] == key
  {
  }

  /** A miss keeps the invariant and leaves the key in the recency map. */
  lemma DropKeepsInv<K, V>(t: Tables<K, V>, key: K, maxSize: int)
    requires Inv(t, maxSize)
    ensures Inv(DropEntry(t, key), maxSize)
    ensures key !in DropEntry(t, key).cache
    ensures DropEntry(t, key).lru == t.lru
  {
  }

  /**
   * `put` keeps the recency map sorted by last use in the history `h`, with the
   * written key the most recent; when the map is full, the key it evicts is the
   * least recently used one.
   */
  lemma PutTablesKeepsRecencyOrder<K, V>(t: Tables<K, V>, h: seq<K>, key: K, value: V, expiry: Long, maxSize: int)
    requires Inv(t, maxSize) && RecencyOrdered(t.lru, h)
    ensures RecencyOrdered(PutTables(t, key, value, expiry, maxSize).lru, h + [key])
    ensures t.lru.Size() >= maxSize ==>
              forall x :: x in t.lru.order && x != t.lru.Eldest() ==> LastUse(h, t.lru.Eldest()) < LastUse(h, x)
  {
    var r := MakeRoom(t, maxSize);
    if t.lru.Size() >= maxSize {
      EldestIsLeastRecentlyUsed(t.lru, h);
      RemoveKeepsRecencyOrder(t.lru, h, t.lru.Eldest());
    }
    PutBoundedKeepsRecencyOrder(r.lru, h, key, value, maxSize);
  }

  /** A fresh hit counts as a use: the recency map stays sorted by last use, with the key the most recent. */
  lemma TouchKeepsRecencyOrder<K, V>(t: Tables<K, V>, h: seq<K>, key: K, value: V, maxSize: int)
    requires t.lru.Valid() && RecencyOrdered(t.lru, h)
    ensures RecencyOrdered(TouchTables(t, key, value, maxSize).lru, h + [key])
  {
    PutBoundedKeepsRecencyOrder(t.lru, h, key, value, maxSize);
  }

  /** Removing a key keeps the invariant and takes the key out of both structures. */
  lemma RemoveKeepsInv<K, V>(t: Tables<K, V>, key: K, maxSize: int)
    requires Inv(t, maxSize)
    ensures var r := RemoveTables(t, key);
      Inv(r, maxSize) && key !in r.cache && !r.lru.ContainsKey(key)
  {
  }

  class TurboCache<K(==), V(==)> {
    /** The primary map. */
    var cache: map<K, CacheEntry<V>>
    /** The access-ordered recency map, with a `removeEldestEntry` hook answering `size() > maxSize`. */
    var lruCache: LinkedMap<K, V>
    /** Timers handed to the scheduler and not yet fired, in arming order. */
    var armed: seq<Timer<K>>

    const backingStore: InMemoryBackingStore<K, V>
    const writePolicy: WritePolicy
    const maxSize: int
    const ttl: Long
    const refreshDuration: Long
    const evictionPolicy: EvictionPolicy
    const expirationStrategy: ExpirationStrategy
    const loadingMode: LoadingMode

    /** The two structures as one value. */
    function State(): Tables<K, V>
      reads this
    {
      Tables(cache, lruCache)
    }

    /**
     * The facade's invariant, and the configuration under which its recency map
     * and its scheduler exist.
     */
    ghost predicate Valid()
      reads this
    {
      Inv(State(), maxSize) && evictionPolicy == LRU && expirationStrategy == TTL
    }

    /** `get` would serve `key` from the primary map at `now`. */
    predicate IsHit(key: K, now: Long)
      reads this
    {
      key in cache && cache[key].IsFresh(now)
    }

    constructor (config: CacheConfig, backingStore: InMemoryBackingStore<K, V>)
      requires config.maxSize >= 1
      requires config.evictionPolicy == LRU && config.expirationStrategy == TTL
      ensures Valid()
      ensures cache == map[] && lruCache.Size() == 0 && armed == []
      ensures this.backingStore == backingStore
      ensures maxSize == config.maxSize && ttl == config.ttl && refreshDuration == config.refreshDuration
      ensures writePolicy == config.writePolicy && loadingMode == config.loadingMode
      ensures evictionPolicy == config.evictionPolicy && expirationStrategy == config.expirationStrategy
    {
      maxSize := config.maxSize;
      ttl := config.ttl;
      refreshDuration := config.refreshDuration;
      evictionPolicy := config.evictionPolicy;
      this.backingStore := backingStore;
      writePolicy := config.writePolicy;
      expirationStrategy := config.expirationStrategy;
      loadingMode := config.loadingMode;
      cache := map[];
      lruCache := EmptyMap();
      armed := [];
    }

    /**
     * `put(key, value)`: evict the eldest key if the recency map is full, record
     * and store the entry expiring `ttl` from now, write through if so configured,
     * and arm the key's cleanup and refresh timers.
     */
    method Put(key: K, value: V, now: Long)
      requires Valid()
      modifies this, backingStore
      ensures Valid()
      ensures State() == PutTables(old(State()), key, value, Add(now, ttl), maxSize)
      ensures backingStore.store == WriteThrough(writePolicy, old(backingStore.store), key, value)
      ensures armed == old(armed) + PutTimers(key, now, ttl, refreshDuration)
    {
      var expiry := Add(now, ttl);
      PutKeepsInv(State(), key, value, expiry, maxSize);
      StoreEntry(key, value, expiry);
      if writePolicy == WRITE_THROUGH {
        backingStore.Save(key, value);
      }
      armed := armed + PutTimers(key, now, ttl, refreshDuration);
    }

    /**
     * The steps of `put` that touch the two structures: if the recency map is
     * full its eldest key leaves both, then the entry is recorded and stored.
     */
    method StoreEntry(key: K, value: V, expiry: Long)
      requires lruCache.Valid() && maxSize >= 1
      modifies this
      ensures State() == PutTables(old(State()), key, value, expiry, maxSize)
      ensures armed == old(armed)
    {
      ghost var before := State();
      var lru, entries := lruCache, cache;
      if lru.Size() >= maxSize {
        var eldestKey := lru.Eldest();
        lru := lru.Remove(eldestKey);
        entries := entries - {eldestKey};
      }
      assert Tables(entries, lru) == MakeRoom(before, maxSize);
      lru := lru.PutBounded(key, value, maxSize);
      entries := entries[key := CacheEntry(value, expiry)];
      lruCache, cache := lru, entries;
    }

    /**
     * `get(key)`: a fresh entry is served and its key touched, with a new cleanup
     * timer; otherwise the entry leaves the primary map (not the recency map) and
     * the backing store is consulted.
     */
    method Get(key: K, now: Long, fetched: Fetch<V>) returns (r: Option<V>)
      requires Valid()
      modifies this, backingStore
      ensures Valid()
      ensures old(IsHit(key, now)) ==>
                && r == Some(old(cache)[key].value)
                && State() == TouchTables(old(State()), key, old(cache)[key].value, maxSize)
                && cache == old(cache)
                && armed == old(armed) + [Arm(CleanupTask, key, now, ttl)]
                && backingStore.store == old(backingStore.store)
      ensures !old(IsHit(key, now)) ==>
                FallbackPost(DropEntry(old(State()), key), old(armed), old(backingStore.store),
                             key, now, fetched, r)
    {
      if key in cache && now < cache[key].expiryTime {
        var entry := cache[key];
        TouchKeepsInv(State(), key, entry.value, maxSize);
        lruCache := lruCache.PutBounded(key, entry.value, maxSize);
        armed := armed + [Arm(CleanupTask, key, now, ttl)];
        r := Some(entry.value);
      } else {
        DropKeepsInv(State(), key, maxSize);
        cache := cache - {key};
        r := GetFromBackStore(key, now, fetched);
      }
    }

    /**
     * What `getFromBackStore` leaves behind, starting from the structures `t`, the
     * timers `timers` and the backing store `store`.
     */
    ghost predicate FallbackPost(t: Tables<K, V>, timers: seq<Timer<K>>, store: map<K, V>,
                                 key: K, now: Long, fetched: Fetch<V>, r: Option<V>)
      reads this, backingStore
      requires t.lru.Valid() && maxSize >= 1
    {
      match loadingMode
      case ASYNC =>
        && r == AsyncResult(fetched)
        && State() == t && armed == timers && backingStore.store == store
      case SYNC =>
        && r == Wrappers.Get(store, key)
        && (r.None? ==> State() == t && armed == timers && backingStore.store == store)
        && (r.Some? ==>
              && State() == PutTables(t, key, r.value, Add(now, ttl), maxSize)
              && armed == timers + PutTimers(key, now, ttl, refreshDuration)
              && backingStore.store == WriteThrough(writePolicy, store, key, r.value))
    }

    /**
     * `getFromBackStore(key)`: in ASYNC mode the loader function's result (null on
     * failure), with nothing cached; in SYNC mode the backing store's value, which is
     * `put` back when it is not null.
     */
    method GetFromBackStore(key: K, now: Long, fetched: Fetch<V>) returns (r: Option<V>)
      requires Valid()
      modifies this, backingStore
      ensures Valid()
      ensures FallbackPost(old(State()), old(armed), old(backingStore.store), key, now, fetched, r)
    {
      if loadingMode == ASYNC {
        r := LoadAsync(fetched);
      } else {
        r := backingStore.Load(key);
        if r.Some? {
          Put(key, r.value, now);
        }
      }
    }

    /** `loadAsync(key)`: the loader function's result, or null when it failed. */
    method LoadAsync(fetched: Fetch<V>) returns (r: Option<V>)
      ensures r == AsyncResult(fetched)
    {
      match fetched
      case Returned(v) =>
        r := v;
      case Threw =>
        r := None;
    }

    /** `remove(key)`: the key leaves both structures; the backing store keeps it. */
    method Remove(key: K)
      requires Valid()
      modifies this
      ensures Valid()
      ensures State() == RemoveTables(old(State()), key)
      ensures key !in cache && !lruCache.ContainsKey(key)
      ensures armed == old(armed)
    {
      RemoveKeepsInv(State(), key, maxSize);
      cache := cache - {key};
      lruCache := lruCache.Remove(key);
    }

    /** `clearCache()`: both structures are emptied. */
    method ClearCache()
      requires Valid()
      modifies this
      ensures Valid()
      ensures cache == map[] && lruCache.Size() == 0 && lruCache.values == map[]
      ensures armed == old(armed)
    {
      cache := map[];
      lruCache := lruCache.Clear();
    }

    /** `size()`: the number of entries of the primary map, never above `maxSize`. */
    method Size() returns (n: int)
      requires Valid()
      ensures n == |cache.Keys|
      ensures 0 <= n <= maxSize
    {
      InvBoundsSize(State(), maxSize);
      n := |cache|;
    }

    /**
     * The body of the cleanup timer `armed[i]`, fired at `now`: if the key's entry
     * is present and expired, it leaves both structures and the expiry callback is
     * invoked once with the key (`notified`); otherwise nothing changes.
     */
    method FireCleanup(i: nat, now: Long) returns (notified: seq<K>)
      requires Valid()
      requires i < |armed| && armed[i].kind == CleanupTask && armed[i].due <= now as int
      modifies this
      ensures Valid()
      ensures armed == old(armed[..i] + armed[i + 1..])
      ensures var key := old(armed[i].key);
        if key in old(cache) && old(cache)[key].IsExpired(now)
        then State() == RemoveTables(old(State()), key) && notified == [key]
        else State() == old(State()) && notified == []
    {
      var key := armed[i].key;
      armed := armed[..i] + armed[i + 1..];
      notified := [];
      if key in cache && now >= cache[key].expiryTime {
        RemoveKeepsInv(State(), key, maxSize);
        cache := cache - {key};
        lruCache := lruCache.Remove(key);
        notified := notified + [key];
      }
    }

    /**
     * The body of the refresh timer `armed[i]`, fired at `now`: for a key with an
     * entry the loader function is applied; a non-null result different from the
     * cached value goes through `put`. An absent key, a null result, an equal value
     * or a loader failure leave the cache as it is.
     */
    method FireRefresh(i: nat, now: Long, fetched: Fetch<V>)
      requires Valid()
      requires i < |armed| && armed[i].kind == RefreshTask && armed[i].due <= now as int
      modifies this, backingStore
      ensures Valid()
      ensures var key := old(armed[i].key);
        var rest := old(armed[..i] + armed[i + 1..]);
        if key in old(cache) && fetched.Returned? && fetched.result.Some?
           && fetched.result.value != old(cache)[key].value
        then
          && State() == PutTables(old(State()), key, fetched.result.value, Add(now, ttl), maxSize)
          && backingStore.store == WriteThrough(writePolicy, old(backingStore.store), key, fetched.result.value)
          && armed == rest + PutTimers(key, now, ttl, refreshDuration)
        else
          State() == old(State()) && backingStore.store == old(backingStore.store) && armed == rest
    {
      var key := armed[i].key;
      armed := armed[..i] + armed[i + 1..];
      if key in cache {
        var entry := cache[key];
        match fetched
        case Returned(newValue) =>
          if newValue.Some? && newValue.value != entry.value {
            Put(key, newValue.value, now);
          }
        case Threw =>
      }
    }
  }
}

/** The eviction and expiry scenarios of the repository's demonstration program, replayed on the model. */
module TurboCacheScenarios {
  import opened Wrappers
  import opened Longs
  import opened Policies
  import opened LinkedMaps
  import opened BackingStores
  import opened TurboCaches

  /**
   * With room for two keys, a third `put` evicts the first; a read of the evicted
   * key is still served, from the backing store that write-through filled.
   */
  method EvictionScenario()
  {
    var store := new InMemoryBackingStore<int, int>();
    var c := new TurboCache<int, int>(CacheConfig(2, 1000, 500, TTL, WRITE_THROUGH, SYNC, LRU), store);
    c.Put(1, 10, 0);
    c.Put(2, 20, 0);
    c.Put(3, 30, 0);
    assert 1 !in c.cache;
    assert store.store == map[1 := 10, 2 := 20, 3 := 30];
    var r := c.Get(1, 1, Threw);
    assert r == Some(10);
  }

  /**
   * A synchronous read under write-through, from a state in which every cached
   * value agrees with the store, returns the store's value whether it hits or
   * misses, and keeps that agreement.
   */
  method ReadThroughScenario(c: TurboCache<int, int>, key: int, now: Long) returns (r: Option<int>)
    requires c.Valid() && c.loadingMode == SYNC && c.writePolicy == WRITE_THROUGH
    requires forall k :: k in c.cache ==> k in c.backingStore.store && c.cache[k].value == c.backingStore.store[k]
    modifies c, c.backingStore
    ensures r == Get(old(c.backingStore.store), key)
    ensures c.Valid() && c.backingStore.store == old(c.backingStore.store)
    ensures forall k :: k in c.cache ==> k in c.backingStore.store && c.cache[k].value == c.backingStore.store[k]
  {
    r := c.Get(key, now, Threw);
  }

  /** An entry is served strictly before `now + ttl`, and at that time its cleanup timer removes it. */
  method ExpiryScenario()
  {
    var store := new InMemoryBackingStore<int, int>();
    var c := new TurboCache<int, int>(CacheConfig(4, 100, 500, TTL, WRITE_BACK, ASYNC, LRU), store);
    c.Put(7, 70, 0);
    assert c.armed[0] == Timer(CleanupTask, 7, 100);
    var r := c.Get(7, 99, Threw);
    assert r == Some(70);
    var notified := c.FireCleanup(0, 100);
    assert notified == [7] && 7 !in c.cache;
    r := c.Get(7, 101, Returned(None));
    assert r == None && store.store == map[];
  }
}
