/**
 * The primary store of the decomposed cache: keys to entries, with the expiry
 * time of a write computed by the configured expiration strategy. It never
 * evicts; its capacity is only a sizing hint.
 */
module InMemoryCaches {
  import opened Wrappers
  import opened Longs
  import opened Policies
  import opened Entries

  /**
   * The expiry time `put(key, value, ttl)` stores: TTL counts `ttl` from now
   * (with long wrap-around), FIXED takes `ttl` as an absolute deadline.
   */
  function ExpiryFor(strategy: ExpirationStrategy, now: Long, ttl: Long): (r: Long)
    ensures strategy == FIXED ==> r == ttl
    ensures strategy == TTL ==> (r as int - (now as int + ttl as int)) % TWO_TO_THE_64 == 0
  {
    match strategy
    case TTL => Add(now, ttl)
    case FIXED => ttl
  }

  /** Under TTL the entry lives `ttl` milliseconds from the write, unless the sum overflows. */
  lemma TtlIsRelative(now: Long, ttl: Long)
    requires -0x8000_0000_0000_0000 <= now as int + ttl as int < 0x8000_0000_0000_0000
    ensures ExpiryFor(TTL, now, ttl) as int - now as int == ttl as int
  {
  }

  /** Under FIXED the deadline does not depend on when the write happens. */
  lemma FixedIgnoresClock(now1: Long, now2: Long, deadline: Long)
    ensures ExpiryFor(FIXED, now1, deadline) == ExpiryFor(FIXED, now2, deadline) == deadline
  {
  }

  /** An entry written by the two-argument `put` at `now` is already not fresh at `now`. */
  lemma TwoArgumentPutIsNeverFresh<V>(v: V, now: Long)
    ensures !CacheEntry(v, now).IsFresh(now)
  {
  }

  class InMemoryCache<K(==), V> {
    /** The primary map. */
    var cache: map<K, CacheEntry<V>>
    const expirationStrategy: ExpirationStrategy
    /** The initial capacity hint of the map; no operation enforces it. */
    const capacity: int

    /** A negative `capacity` makes the `ConcurrentHashMap` constructor throw `IllegalArgumentException`. */
    constructor (capacity: int, expirationStrategy: ExpirationStrategy)
      requires capacity >= 0
      ensures this.capacity == capacity && this.expirationStrategy == expirationStrategy
      ensures cache == map[]
    {
      this.capacity := capacity;
      this.expirationStrategy := expirationStrategy;
      cache := map[];
    }

    /** `put(key, value)`: stores the value with the current time as its expiry time. */
    method Put(key: K, value: V, now: Long)
      modifies this
      ensures cache == old(cache)[key := CacheEntry(value, now)]
      ensures cache.Keys == old(cache).Keys + {key}
    {
      cache := cache[key := CacheEntry(value, now)];
    }

    /** `put(key, value, ttl)`: stores the value with the expiry time the strategy computes. */
    method PutWithTtl(key: K, value: V, ttl: Long, now: Long)
      modifies this
      ensures cache == old(cache)[key := CacheEntry(value, ExpiryFor(expirationStrategy, now, ttl))]
      ensures cache.Keys == old(cache).Keys + {key}
    {
      match expirationStrategy
      case TTL =>
        cache := cache[key := CacheEntry(value, Add(now, ttl))];
      case FIXED =>
        cache := cache[key := CacheEntry(value, ttl)];
    }

    /** `get(key)`: the last entry stored for `key`, or null; nothing changes. */
    method Get(key: K) returns (e: Option<CacheEntry<V>>)
      ensures e.Some? <==> key in cache
      ensures e.Some? ==> e.value == cache[key]
    {
      e := Wrappers.Get(cache, key);
    }

    /** `remove(key)`: deletes `key` only. */
    method Remove(key: K)
      modifies this
      ensures cache == old(cache) - {key}
    {
      cache := cache - {key};
    }

    /** `clearCache()`: empties the map. */
    method ClearCache()
      modifies this
      ensures cache == map[]
    {
      cache := map[];
    }

    /** `size()`: the number of keys. */
    method Size() returns (n: int)
      ensures n == |cache.Keys|
    {
      n := |cache|;
    }
  }
}
