/** The construction entry point: builds a cache engine from a configuration
    record, choosing the eviction policy by its identifier. */
module Factory {
  import opened Cache
  import opened Lru

  /** An empty LRU engine holding the configured capacity and default
      time-to-live unchanged. LRU is the only policy defined, and any other
      identifier silently builds the same engine. */
  method New<V>(conf: Config) returns (c: LruCache<V>)
    requires 1 <= conf.capacity
    ensures fresh(c) && c.Valid()
    ensures c.queue == [] && c.items == map[]
    ensures c.capacity == conf.capacity && c.expire == conf.expire
  {
    if conf.evictionPolicy == EVICTION_POLICY_LRU {
      c := new LruCache(conf.capacity, conf.expire);
    } else {
      c := new LruCache(conf.capacity, conf.expire);
    }
  }
}
