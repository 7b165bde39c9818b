/** The immutable (value, expiryTime) pair stored in a cache's primary map. */
module Entries {
  import opened Longs

  /**
   * Both components are final: an entry never changes after construction, and
   * an update replaces the whole entry in the map.
   */
  datatype CacheEntry<V> = CacheEntry(value: V, expiryTime: Long)
  {
    /** The freshness test of the readers: still usable strictly before its expiry time. */
    predicate IsFresh(now: Long) {
      now < expiryTime
    }

    /** The test of the facade's cleanup task: expired at or after its expiry time. */
    predicate IsExpired(now: Long) {
      now >= expiryTime
    }

    /** The test of the decomposed scheduler's cleanup task: strictly past the expiry time. */
    predicate IsPastDeadline(now: Long) {
      now > expiryTime
    }
  }

  /** The constructor stores both arguments unchanged. */
  lemma ConstructorStoresArguments<V>(v: V, t: Long)
    ensures CacheEntry(v, t).value == v && CacheEntry(v, t).expiryTime == t
  {
  }

  /** The facade's cleanup condition is exactly the complement of the readers' freshness test. */
  lemma ExpiredIsNotFresh<V>(e: CacheEntry<V>, now: Long)
    ensures e.IsExpired(now) <==> !e.IsFresh(now)
  {
  }

  /**
   * The decomposed scheduler's condition is stricter: it implies expiry, and an
   * entry whose expiry time equals the current time is neither fresh nor removed by it.
   */
  lemma PastDeadlineIsStricter<V>(e: CacheEntry<V>, now: Long)
    ensures e.IsPastDeadline(now) ==> e.IsExpired(now)
    ensures now == e.expiryTime ==> !e.IsFresh(now) && !e.IsPastDeadline(now)
  {
  }
}
