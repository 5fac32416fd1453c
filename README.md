# go-heap-cache: the LRU engine in Dafny

This project models the in-memory cache engine of `go-heap-cache`. It is a
key/value store with:

- a fixed capacity;
- a per-entry expiry second, or the sentinel `NO_EXPIRE`;
- least-recently-used eviction.

The engine keeps two structures in step:

- a doubly linked list of nodes, whose front is the most recently used entry;
- a map from key to the list element holding that key's node.

The model has five modules:

- `Cache` (`cache.dfy`) holds the declarations of `cache.go`:
  - the constants;
  - the `Node` record and the `Config` record;
  - Go's `int64`, with wrapping addition (`AddInt64`);
  - the error values the engine returns.
- `RecencyList` (`recency_list.dfy`) stands in for `container/list`. The list
  is a `seq<string>` of keys, and its operations are unlink (`Without`),
  `MoveToFront` and order-preserving filtering (`Restrict`). Lemmas state
  their effect on the key set and on duplicate-freedom.
- `Lru` (`lru.dfy`) models `lru.go`. The class `LruCache` has the fields
  `queue` (the recency list) and `items` (the map), plus the constants
  `expire` and `capacity`. Its invariant `Inv` says:
  - the list and the map hold the same keys;
  - they are equally long;
  - no key is listed twice;
  - every node carries its own key;
  - the size never exceeds the capacity.

  Every state-changing method keeps `Valid()` and states its new state through
  specification functions:
  - `SetQueue`/`SetItems` for `set`;
  - `MoveToFront` for `Get`;
  - `Without` for `Delete`;
  - `Sweep`/`Restrict` for `DeleteExpired`.

  The lemmas beside them state what the design promises:
  - which key is evicted;
  - that a read protects a key from the next eviction;
  - exact counts;
  - the expiry window and the overflow of `now + ttl`.
- `Factory` (`factory.dfy`) models `New` from `cache.go`.
- `Scenarios` (`scenarios.dfy`) replays the scenarios of `fifo_test.go`
  against the method contracts alone:
  - set/get;
  - expiry after a wait;
  - delete twice;
  - sweeps;
  - head and tail;
  - least-recently-used eviction.

  The tests name `EVICTION_POLICY_FIFO`, which the configuration does not
  define. The scenarios therefore build their caches with another identifier,
  which takes the factory's fallback branch and yields the same LRU engine. The
  eviction scenario uses a capacity of two rather than five, which keeps the
  replay small.

Modelling decisions:

- **Time.** The wall clock is an explicit `now: int64` argument (Unix
  seconds), read once per call.
- **Stored values.** Cached values are a type parameter `V`.
- **Expiry at overflow.** `Set` and `SetWithExpire` compute `now + ttl` with
  Go's wrapping `int64` addition. A time-to-live large enough to overflow gives
  a negative expiry, so the entry is expired at once (`OverflowedExpiryIsPast`).
- **Two expiry tests.** The read paths and the sweep use different tests:
  - `Get` and `GetAll` treat an entry as live while `expireAt > now`;
  - `DeleteExpired` removes it only once `expireAt < now`.

  `LazyAndSweepDiffer` states the one second on which they disagree.
- **Head and tail.** The doc comments of `headNode` and `tailNode` in
  `lru.go` describe the front as the least recently used entry and the back as
  the most recently used one. The code does the opposite: `Set` and `Get` push
  and move to the front, and eviction takes the back. The model follows the
  code:
  - `HeadNode` returns the most recently used node;
  - `TailNode` returns the least recently used one, which is the next eviction
    victim.
- **Sweep.** The loop of `DeleteExpired` is the module-level method
  `SweepEntries`. It runs on the list and the map the method holds, and
  `DeleteExpired` stores the results back. The source deletes while iterating
  under the write lock, so no other operation can observe the difference.
  Map iteration order is a nondeterministic choice (`:|`), and the contract
  holds for every order.

## Model

| member | source | states |
|---|---|---|
| Cache.AddInt64 | lru.go:45 | the sum of two `int64` values wraps by 2^64 exactly when it leaves the `int64` range, and is exact otherwise |
| Lru.ExpireAtFor | lru.go:42-48 | a NO_EXPIRE time-to-live gives NO_EXPIRE; otherwise the expiry is `now + ttl` when that does not overflow; a non-negative clock and time-to-live never produce the sentinel by accident |
| Lru.TtlWindow | lru.go:54-61 | an entry stored at `now` with a positive time-to-live is returned by reads exactly at the seconds before `now + ttl` |
| Lru.OverflowedExpiryIsPast | lru.go:58 | a time-to-live whose sum with `now` overflows gives an entry that is invisible to reads and removed by the next sweep |
| Lru.LazyAndSweepDiffer | lru.go:123 | every entry the sweep removes is invisible to reads; the only invisible entries the sweep keeps are those whose expiry equals `now` |
| Lru.LruCache.constructor | cache.go:47-52 | a new engine is empty, satisfies the invariant and keeps the given capacity and default time-to-live |
| Factory.New | cache.go:41-64 | for any policy identifier the result is a fresh, empty, valid LRU engine with the configured capacity and time-to-live |
| Lru.LruCache.Get | lru.go:21-38 | an absent key gives CacheNotFound and an expired one CacheExpired, with nothing moved; a live key returns its data and moves to the front; the map never changes |
| Lru.LruCache.Set | lru.go:41-51 | stores the value with expiry `ExpireAtFor(now, expire)` and updates the list and the map as `set` does; the invariant is kept |
| Lru.LruCache.SetWithExpire | lru.go:54-65 | stores the value with expiry `ExpireAtFor(now, expiry)`, ignoring the engine default; the invariant is kept |
| Lru.LruCache.SetExpireAt | lru.go:140-172 | the private `set`: the list becomes `SetQueue` and the map `SetItems` of the old state, and the invariant is kept |
| Lru.SetKeepsInv | lru.go:145-170 | storing keeps the list/map invariant and leaves the key at the front with exactly the new node |
| Lru.SetKeepsOthers | lru.go:145-170 | every other key still present after storing keeps the node it had |
| Lru.PushFrontKeepsInv | lru.go:155-159 | pushing a new key into a cache with room keeps the invariant |
| Lru.SetCount | lru.go:145-160 | the entry count grows by one for a new key in a cache with room, and stays the same otherwise |
| Lru.SetEvictsBack | lru.go:147-153 | a new key meeting a full cache evicts exactly the back key, whatever its expiry; the other keys keep their order behind the new front key |
| Lru.SetRefreshes | lru.go:161-170 | storing under a present key keeps the key set, replaces its node and keeps the relative order of the other keys |
| Lru.GetShieldsFromEviction | lru.go:27-28 | after a successful read in a cache of two or more entries, the next capacity eviction removes some other key |
| RecencyList.MoveToFront | lru.go:28 | the moved key is at the front and the key set gains exactly that key |
| RecencyList.MoveToFrontPermutes | lru.go:28 | moving a present key permutes a duplicate-free list: same keys, same length, no duplicates, the others in their old order |
| RecencyList.WithoutBack | lru.go:148-149 | unlinking the back key of a duplicate-free list drops exactly its last position |
| RecencyList.Without | lru.go:99 | unlinking removes exactly the given key from the key set and keeps the list duplicate-free |
| RecencyList.WithoutSize | lru.go:99 | unlinking a present key shortens a duplicate-free list by exactly one |
| Lru.LruCache.GetAll | lru.go:68-83 | the result holds exactly the live entries, each with its stored node; nothing is removed or reordered |
| Lru.LruCache.Count | lru.go:86-91 | the count is the size of the map and of the list, expired entries included, and never exceeds the capacity |
| Lru.LruCache.Delete | lru.go:94-106 | a present key is unlinked and deleted, with success reported; an absent key gives CacheNotFound and changes nothing |
| Lru.DeleteKeepsInv | lru.go:98-100 | deleting a present key keeps the invariant and shrinks the cache by exactly one |
| Lru.LruCache.DeleteExpired | lru.go:109-137 | the map becomes the old map without its expired entries, and the list keeps the survivors in their old order; the result is NoItemsAvailable on an empty cache, NoExpiredItemsFound when nothing expired, and otherwise the number removed |
| Lru.SweepEntries | lru.go:120-128 | visiting the entries in any order, the loop removes exactly the expired keys from both structures and counts them |
| Lru.SweepKeepsInv | lru.go:120-128 | a sweep keeps the invariant and lowers the count by exactly the number of expired keys |
| RecencyList.RestrictWithout | lru.go:124 | unlinking one more key from a filtered list is filtering by one key fewer, which makes each sweep step a filter of the original order |
| Lru.LruCache.HeadNode | lru.go:175-188 | an empty list gives HeadNodeNotAvailable; otherwise the result is the node of the front, most recently used, key |
| Lru.LruCache.TailNode | lru.go:191-205 | an empty list gives TailNodeNotAvailable; otherwise the result is the node of the back key, the next eviction victim |

## Left out

- Locking: `sync.RWMutex` is not modelled, and each method is one atomic step.
  `Get` moves the element to the front while holding only the read lock. That
  is a data race between concurrent readers, and the model does not capture it.
- The wall clock: `time.Now()` becomes the `now` argument. `GetAll` and
  `DeleteExpired` read the clock once per entry, and the model uses one `now`
  for the whole call.
- `container/list` internals: element addresses, the sentinel ring and the
  `Value` interface. The list is a sequence of keys, and the nodes live in the
  map.
- The "not able get" branches of `headNode` and `tailNode`, and the failed
  type assertion in `set`. Every list element holds a `Node`, so they cannot
  happen.
- Error strings: errors are an enumeration. `DeleteExpired` returns the
  deleted count rather than the formatted message.
- `GetAll` values: the source stores `*list.Element` values in the returned
  map, and the model returns the `Node` each element holds.
- Benchmarks in the test files, and the undefined `EVICTION_POLICY_FIFO`.
- Factory.New: requires a capacity of at least one. In the source, capacity 0
  panics on the first insert, because it evicts from an empty list. A negative
  capacity never triggers eviction, so the cache is unbounded.
- Lru.LruCache.constructor: requires a capacity of at least one, for the same
  reason.
