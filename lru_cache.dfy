/**
 * The recency tracker of the decomposed cache: an access-ordered map of at most
 * `capacity` keys that names the key it evicts.
 */
module LRUCaches {
  import opened Wrappers
  import opened Longs
  import opened Policies
  import opened Entries
  import opened LinkedMaps

  /**
   * What `evictIfRequired` ends with: it returns the evicted key (null when
   * nothing was evicted), or throws `NoSuchElementException` when it has to evict
   * from an empty map, which happens exactly when `capacity` is 0.
   */
  datatype Eviction<K> = Returned(evictedKey: Option<K>) | NoSuchElementException

  class LRUCache<K(==), V> {
    /** The access-ordered map, with a `removeEldestEntry` hook answering `size() > capacity`. */
    var lruCache: LinkedMap<K, V>
    const capacity: int
    const evictionPolicy: EvictionPolicy
    /** Every key put into the tracker so far, in order of the puts. */
    ghost var accesses: seq<K>

    /**
     * The tracker never holds more than `capacity` keys, and its iteration order is
     * its keys sorted by last access.
     */
    ghost predicate Valid()
      reads this
    {
      capacity >= 0 && lruCache.Valid() && lruCache.Size() <= capacity && RecencyOrdered(lruCache, accesses)
    }

    /** A negative `capacity` makes the `LinkedHashMap` constructor throw `IllegalArgumentException`. */
    constructor (capacity: int, evictionPolicy: EvictionPolicy)
      requires capacity >= 0
      ensures Valid()
      ensures this.capacity == capacity && this.evictionPolicy == evictionPolicy
      ensures lruCache.Size() == 0
    {
      this.capacity := capacity;
      this.evictionPolicy := evictionPolicy;
      lruCache := EmptyMap();
      accesses := [];
      EmptyIsRecencyOrdered<K, V>([]);
    }

    /**
     * `evictIfRequired(key, value)`: when `key` is new and the tracker is full, the
     * least recently used key is removed and returned; then `key` maps to `value`
     * as the most recently used key. A full tracker with no key to evict (capacity
     * 0) throws before anything changes.
     */
    method EvictIfRequired(key: K, value: V) returns (r: Eviction<K>)
      requires Valid()
      modifies this
      ensures Valid()
      ensures r ==
                if !old(lruCache).ContainsKey(key) && old(lruCache).Size() >= capacity
                then (if old(lruCache).order == [] then NoSuchElementException
                      else Returned(Some(old(lruCache).Eldest())))
                else Returned(None)
      ensures r.NoSuchElementException? ==> lruCache == old(lruCache) && accesses == old(accesses)
      ensures r == Returned(None) ==> lruCache == old(lruCache).Put(key, value)
      ensures r.Returned? && r.evictedKey.Some? ==>
                && lruCache == old(lruCache).RemoveEldest().Put(key, value)
                && forall x :: x in old(lruCache).order && x != r.evictedKey.value ==>
                     LastUse(old(accesses), r.evictedKey.value) < LastUse(old(accesses), x)
      ensures r.Returned? ==>
                && lruCache.ContainsKey(key) && lruCache.values[key] == value
                && lruCache.order[|lruCache.order| - 1] == key
                && accesses == old(accesses) + [key]
    {
      if !lruCache.ContainsKey(key) && lruCache.Size() >= capacity {
        if lruCache.order == [] {
          return NoSuchElementException;
        }
        var eldest := lruCache.Eldest();
        EldestIsLeastRecentlyUsed(lruCache, accesses);
        RemoveKeepsRecencyOrder(lruCache, accesses, eldest);
        lruCache := lruCache.Remove(eldest);
        r := Returned(Some(eldest));
      } else {
        r := Returned(None);
      }
      PutBoundedKeepsRecencyOrder(lruCache, accesses, key, value, capacity);
      lruCache := lruCache.PutBounded(key, value, capacity);
      accesses := accesses + [key];
    }

    /**
     * `put(key, entry)`: a null or no longer fresh entry changes nothing; a fresh one
     * makes `key` the most recently used key, and inserting a new key into a full
     * tracker silently drops the eldest one (at capacity 0, the key itself).
     */
    method Put(key: K, entry: Option<CacheEntry<V>>, now: Long)
      requires Valid()
      modifies this
      ensures Valid()
      ensures entry.None? || !entry.value.IsFresh(now) ==>
                lruCache == old(lruCache) && accesses == old(accesses)
      ensures entry.Some? && entry.value.IsFresh(now) ==>
                && lruCache == old(lruCache).PutBounded(key, entry.value.value, capacity)
                && (capacity >= 1 ==> lruCache.ContainsKey(key) && lruCache.order[|lruCache.order| - 1] == key)
                && accesses == old(accesses) + [key]
    {
      if entry.Some? && now < entry.value.expiryTime {
        PutBoundedKeepsRecencyOrder(lruCache, accesses, key, entry.value.value, capacity);
        lruCache := lruCache.PutBounded(key, entry.value.value, capacity);
        accesses := accesses + [key];
      }
    }

    /** `remove(key)`: deletes `key` only, the others keep their relative order. */
    method Remove(key: K)
      requires Valid()
      modifies this
      ensures Valid()
      ensures lruCache == old(lruCache).Remove(key)
      ensures accesses == old(accesses)
    {
      RemoveKeepsRecencyOrder(lruCache, accesses, key);
      lruCache := lruCache.Remove(key);
    }

    /** `clearCache()`: empties the tracker. */
    method ClearCache()
      requires Valid()
      modifies this
      ensures Valid()
      ensures lruCache.Size() == 0 && lruCache.values == map[]
      ensures accesses == old(accesses)
    {
      lruCache := lruCache.Clear();
    }
  }
}
