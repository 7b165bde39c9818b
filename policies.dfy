/** The configuration enums of the cache and the configuration record. */
module Policies {
  import opened Longs

  /** How an entry's expiry time is computed from the time argument of a write. */
  datatype ExpirationStrategy = TTL | FIXED

  /** Whether a miss is filled on the caller's thread or on the single loader worker. */
  datatype LoadingMode = SYNC | ASYNC

  /** When a write reaches the backing store. */
  datatype WritePolicy = WRITE_THROUGH | WRITE_BACK | WRITE_AROUND | WRITE_BEHIND

  /** Which key is given up when the cache is full; only LRU has a structure behind it. */
  datatype EvictionPolicy = LRU | LFU | FIFO

  /** The configuration a cache is built from, read once and never changed. */
  datatype CacheConfig = CacheConfig(
    maxSize: int,
    ttl: Long,
    refreshDuration: Long,
    expirationStrategy: ExpirationStrategy,
    writePolicy: WritePolicy,
    loadingMode: LoadingMode,
    evictionPolicy: EvictionPolicy)
}
