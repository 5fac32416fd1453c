/** The engine's test scenarios, replayed against the contracts alone. The
    tests name a policy identifier that the configuration does not define, so
    every cache here is built through the factory's fallback branch. Waiting
    is modelled by passing a later `now`. */
module Scenarios {
  import opened Cache
  import opened RecencyList
  import opened Lru
  import Factory

  /** A policy identifier other than EVICTION_POLICY_LRU. */
  const OTHER_POLICY: int := 2
  /** An arbitrary wall-clock second at which each scenario starts. */
  const START: int64 := 1_700_000_000

  method SetAndGet()
  {
    var cache := Factory.New<string>(Config(DEFAULT_CAPACITY, DEFAULT_EXPIRE, OTHER_POLICY));
    cache.Set("key1", "value1", START);
    var v := cache.Get("key1", START);
    assert v == Ok("value1");
    v := cache.Get("non_existing_key", START);
    assert v == Err(CacheNotFound);
  }

  method SetWithExpireThenWait()
  {
    var cache := Factory.New<string>(Config(DEFAULT_CAPACITY, NO_EXPIRE, OTHER_POLICY));
    cache.SetWithExpire("key2", "value2", 2, START);
    var v := cache.Get("key2", START);
    assert v == Ok("value2");
    cache.SetWithExpire("key3", "value3", 2, START);
    v := cache.Get("key3", START + 3);
    assert v == Err(CacheExpired);
    var n := cache.Count();
    assert n == 2;
  }

  method DeleteTwice()
  {
    var cache := Factory.New<string>(Config(DEFAULT_CAPACITY, NO_EXPIRE, OTHER_POLICY));
    cache.Set("key5", "value5", START);
    var outcome := cache.Delete("key5");
    assert outcome == Pass;
    outcome := cache.Delete("key5");
    assert outcome == Fail(CacheNotFound);
    var v := cache.Get("key5", START);
    assert v == Err(CacheNotFound);
  }

  method EmptyCache()
  {
    var cache := Factory.New<string>(Config(DEFAULT_CAPACITY, NO_EXPIRE, OTHER_POLICY));
    var r := cache.DeleteExpired(START);
    assert r == Err(NoItemsAvailable);
    var tail := cache.TailNode();
    assert tail == Err(TailNodeNotAvailable);
  }

  method DeleteExpiredSweeps()
  {
    var cache := Factory.New<string>(Config(DEFAULT_CAPACITY, NO_EXPIRE, OTHER_POLICY));
    cache.SetWithExpire("key5", "value5", NO_EXPIRE, START);
    cache.SetWithExpire("key6", "value6", 2, START);
    assert cache.items.Keys == {"key5", "key6"};
    SweepOneExpired(cache);
  }

  /** Three seconds later the sweep removes the entry with the two-second
      time-to-live and keeps the one that never expires. */
  method SweepOneExpired(cache: LruCache<string>)
    requires cache.Valid() && cache.capacity == DEFAULT_CAPACITY && cache.expire == NO_EXPIRE
    requires cache.items.Keys == {"key5", "key6"}
    requires cache.items["key5"].expireAt == NO_EXPIRE && cache.items["key6"].expireAt == START + 2
    modifies cache
  {
    ghost var before := cache.items;
    assert ExpiredKeys(before, START + 3) == {"key6"};
    var r := cache.DeleteExpired(START + 3);
    assert r == Ok(1);
    assert cache.items.Keys == {"key5"} && cache.items["key5"] == before["key5"];
    SweepFindsNothing(cache);
  }

  /** The rest of the sweep scenario: two more keys that never expire, a sweep
      that finds nothing, and every entry still counted. */
  method SweepFindsNothing(cache: LruCache<string>)
    requires cache.Valid() && cache.capacity == DEFAULT_CAPACITY && cache.expire == NO_EXPIRE
    requires cache.items.Keys == {"key5"} && cache.items["key5"].expireAt == NO_EXPIRE
    modifies cache
  {
    cache.SetWithExpire("key7", "value7", NO_EXPIRE, START + 3);
    cache.Set("key8", "value8", START + 3);
    assert cache.items.Keys == {"key5", "key7", "key8"};
    assert ExpiredKeys(cache.items, START + 3) == {};
    var r := cache.DeleteExpired(START + 3);
    assert r == Err(NoExpiredItemsFound);
    var n := cache.Count();
    assert n == 3;
  }

  method HeadFollowsUse()
  {
    var cache := Factory.New<string>(Config(5, NO_EXPIRE, OTHER_POLICY));
    var head := cache.HeadNode();
    assert head == Err(HeadNodeNotAvailable);
    cache.Set("key1", "value1", START);
    cache.Set("key2", "value2", START);
    head := cache.HeadNode();
    assert head.Ok? && head.value.key == "key2";
    cache.Set("key3", "value3", START);
    cache.Set("key1", "value1", START);
    head := cache.HeadNode();
    assert head.Ok? && head.value.key == "key1";
  }

  /** A read refreshes a key, so a new key meeting the full cache evicts the
      other one, which the tail showed as the next victim. */
  method LeastRecentlyUsedIsEvicted()
  {
    var cache := Factory.New<string>(Config(2, NO_EXPIRE, OTHER_POLICY));
    cache.Set("key1", "value1", START);
    cache.Set("key2", "value2", START);
    assert cache.queue == ["key2", "key1"];
    RefreshTail(cache);
  }

  /** The second step: reading the back key brings it to the front, and the
      other key becomes the tail. */
  method RefreshTail(cache: LruCache<string>)
    requires cache.Valid() && cache.capacity == 2 && cache.expire == NO_EXPIRE
    requires cache.queue == ["key2", "key1"]
    requires forall k :: k in cache.items ==> cache.items[k].expireAt == NO_EXPIRE
    requires "key1" in cache.items && cache.items["key1"].data == "value1"
    modifies cache
  {
    var v := cache.Get("key1", START);
    assert v == Ok("value1");
    assert cache.queue == ["key1", "key2"];
    var tail := cache.TailNode();
    assert tail.Ok? && tail.value.key == "key2";
    EvictTail(cache);
  }

  /** The last step: the new key evicts the tail key and keeps the refreshed one. */
  method EvictTail(cache: LruCache<string>)
    requires cache.Valid() && cache.capacity == 2 && cache.expire == NO_EXPIRE
    requires cache.queue == ["key1", "key2"]
    requires forall k :: k in cache.items ==> cache.items[k].expireAt == NO_EXPIRE
    modifies cache
  {
    cache.Set("key3", "value3", START);
    assert cache.queue == ["key3", "key1"];
    assert cache.items.Keys == {"key3", "key1"};
    var v := cache.Get("key2", START);
    assert v == Err(CacheNotFound);
    assert IsLive(cache.items["key3"], START) && IsLive(cache.items["key1"], START);
    var live := cache.GetAll(START);
    assert live.Keys == {"key3", "key1"};
  }
}
