/** The LRU cache engine: a recency list of keys (front = most recently used,
    back = eviction candidate) paired with a map from key to node. Every
    operation updates the two together. The wall clock is an explicit `now`
    argument, in Unix seconds. */
module Lru {
  import opened Cache
  import opened RecencyList

  // ---------------------------------------------------------------------
  // Expiry
  // ---------------------------------------------------------------------

  /** What the read paths (`Get`, `GetAll`) see: an entry is visible while it
      never expires or its expiry second is still strictly in the future. */
  predicate IsLive<V>(n: Node<V>, now: int64)
  {
    n.expireAt == NO_EXPIRE || n.expireAt > now
  }

  /** What the sweep (`DeleteExpired`) removes: an entry with a real expiry
      second strictly in the past. */
  predicate IsSwept<V>(n: Node<V>, now: int64)
  {
    n.expireAt != NO_EXPIRE && n.expireAt < now
  }

  /** The two expiry tests disagree on exactly one second: an entry whose
      expiry equals `now` is already invisible to reads, yet the sweep keeps it. */
  lemma LazyAndSweepDiffer<V>(n: Node<V>, now: int64)
    ensures IsSwept(n, now) ==> !IsLive(n, now)
    ensures !IsLive(n, now) && !IsSwept(n, now) <==> n.expireAt != NO_EXPIRE && n.expireAt == now
  {
  }

  /** The absolute expiry an entry receives when it is stored at `now` with
      time-to-live `ttl` seconds (`Set` passes the engine default). */
  function ExpireAtFor(now: int64, ttl: int64): (r: int64)
    ensures ttl == NO_EXPIRE ==> r == NO_EXPIRE
    ensures ttl != NO_EXPIRE && -0x8000_0000_0000_0000 <= now as int + ttl as int < 0x8000_0000_0000_0000 ==>
              r as int == now as int + ttl as int
    ensures 0 <= now && 0 <= ttl ==> r != NO_EXPIRE
  {
    if ttl != NO_EXPIRE then AddInt64(now, ttl) else NO_EXPIRE
  }

  /** An entry stored at `now` with a positive time-to-live is returned by
      reads strictly before `now + ttl` and reported expired from then on. */
  lemma TtlWindow<V>(data: V, key: string, now: int64, ttl: int64, later: int64)
    requires 0 <= now && 0 < ttl && now as int + ttl as int < 0x8000_0000_0000_0000
    ensures IsLive(Node(data, ExpireAtFor(now, ttl), key), later) <==> later as int < now as int + ttl as int
  {
  }

  /** A time-to-live so long that `now + ttl` overflows `int64` wraps to a
      negative expiry: the entry is invisible at once and the next sweep
      removes it. */
  lemma OverflowedExpiryIsPast<V>(data: V, key: string, now: int64, ttl: int64, later: int64)
    requires 0 <= now && 0 <= ttl && now as int + ttl as int >= 0x8000_0000_0000_0000
    requires 0 <= later
    ensures !IsLive(Node(data, ExpireAtFor(now, ttl), key), later)
    ensures IsSwept(Node(data, ExpireAtFor(now, ttl), key), later)
  {
  }

  // ---------------------------------------------------------------------
  // The structural invariant and the effect of each update on it
  // ---------------------------------------------------------------------

  /** The list and the map hold the same keys and are equally long, the list
      holds each key once, every node carries its own map key, and the size
      stays within capacity. */
  ghost predicate Inv<V>(queue: seq<string>, items: map<string, Node<V>>, capacity: int)
  {
    && 1 <= capacity
    && Distinct(queue)
    && items.Keys == Elems(queue)
    && |queue| == |items|
    && (forall k :: k in items ==> items[k].key == k)
    && |items| <= capacity
  }

  /** The recency list after storing `key`: an existing key moves to the front;
      a new key is pushed at the front, after the back key is dropped when the
      cache is full. */
  function SetQueue<V>(queue: seq<string>, items: map<string, Node<V>>, capacity: int, key: string): seq<string>
    requires Inv(queue, items, capacity)
  {
    if key in items then MoveToFront(queue, key)
    else if |items| == capacity then [key] + queue[..|queue| - 1]
    else [key] + queue
  }

  /** The map after storing `node` under `key`: the node replaces or adds the
      entry, after the back key's entry is deleted when a new key meets a full cache. */
  function SetItems<V>(queue: seq<string>, items: map<string, Node<V>>, capacity: int,
                       key: string, node: Node<V>): map<string, Node<V>>
    requires Inv(queue, items, capacity)
  {
    if key in items then items[key := node]
    else if |items| == capacity then (items - {queue[|queue| - 1]})[key := node]
    else items[key := node]
  }

  /** Storing an entry keeps the invariant and puts the key at the front of
      the list with the new node. */
  lemma SetKeepsInv<V>(queue: seq<string>, items: map<string, Node<V>>, capacity: int,
                       key: string, node: Node<V>)
    requires Inv(queue, items, capacity) && node.key == key
    ensures Inv(SetQueue(queue, items, capacity, key), SetItems(queue, items, capacity, key, node), capacity)
    ensures SetQueue(queue, items, capacity, key)[0] == key
    ensures SetItems(queue, items, capacity, key, node)[key] == node
  {
    if key in items {
      assert key in Elems(queue);
      MoveToFrontPermutes(queue, key);
    } else if |items| == capacity {
      var back := queue[|queue| - 1];
      assert back in Elems(queue);
      DeleteKeepsInv(queue, items, capacity, back);
      WithoutBack(queue);
      PushFrontKeepsInv(queue[..|queue| - 1], items - {back}, capacity, key, node);
    } else {
      PushFrontKeepsInv(queue, items, capacity, key, node);
    }
  }

  /** Storing an entry leaves every other surviving node as it was. */
  lemma SetKeepsOthers<V>(queue: seq<string>, items: map<string, Node<V>>, capacity: int,
                          key: string, node: Node<V>, k: string)
    requires Inv(queue, items, capacity)
    requires k in SetItems(queue, items, capacity, key, node) && k != key
    ensures k in items && SetItems(queue, items, capacity, key, node)[k] == items[k]
  {
  }

  /** Pushing a new key at the front of a cache with room keeps the invariant. */
  lemma PushFrontKeepsInv<V>(queue: seq<string>, items: map<string, Node<V>>, capacity: int,
                             key: string, node: Node<V>)
    requires Inv(queue, items, capacity) && key !in items && |items| < capacity && node.key == key
    ensures Inv([key] + queue, items[key := node], capacity)
  {
    var m := items[key := node];
    var q := [key] + queue;
    DistinctCons(key, queue);
    ElemsCons(key, queue);
    assert m.Keys == Elems(q);
    assert |q| == |m| by {
      assert |m| == |items| + 1;
    }
    assert forall k :: k in m ==> m[k].key == k;
  }

  /** Storing changes the entry count only for a new key in a cache with room,
      and then by exactly one. */
  lemma SetCount<V>(queue: seq<string>, items: map<string, Node<V>>, capacity: int,
                    key: string, node: Node<V>)
    requires Inv(queue, items, capacity) && node.key == key
    ensures |SetItems(queue, items, capacity, key, node)| ==
              if key in items || |items| == capacity then |items| else |items| + 1
  {
    SetKeepsInv(queue, items, capacity, key, node);
    if key in items {
      MoveToFrontPermutes(queue, key);
    }
  }

  /** A new key meeting a full cache evicts exactly the back key of the list
      (whatever its expiry), and the other keys keep their order behind it. */
  lemma SetEvictsBack<V>(queue: seq<string>, items: map<string, Node<V>>, capacity: int,
                         key: string, node: Node<V>)
    requires Inv(queue, items, capacity) && key !in items && |items| == capacity
    ensures queue != []
    ensures var back := queue[|queue| - 1];
            && back !in SetItems(queue, items, capacity, key, node)
            && SetItems(queue, items, capacity, key, node).Keys == items.Keys - {back} + {key}
            && SetQueue(queue, items, capacity, key) == [key] + Without(queue, back)
  {
    var back := queue[|queue| - 1];
    WithoutBack(queue);
    assert back in Elems(queue);
    assert back != key;
  }

  /** Storing under a key already present replaces its node, moves it to the
      front and keeps both the key set and the relative order of the others. */
  lemma SetRefreshes<V>(queue: seq<string>, items: map<string, Node<V>>, capacity: int,
                        key: string, node: Node<V>)
    requires Inv(queue, items, capacity) && key in items
    ensures SetItems(queue, items, capacity, key, node).Keys == items.Keys
    ensures SetItems(queue, items, capacity, key, node)[key] == node
    ensures Without(SetQueue(queue, items, capacity, key), key) == Without(queue, key)
  {
    assert key in Elems(queue);
    MoveToFrontPermutes(queue, key);
  }

  /** A successful `Get` protects its key from the next capacity eviction:
      once it is at the front of a list of two or more keys, storing a new key
      into the full cache evicts some other key. */
  lemma GetShieldsFromEviction<V>(queue: seq<string>, items: map<string, Node<V>>, capacity: int,
                                  key: string, newKey: string, node: Node<V>)
    requires Inv(queue, items, capacity) && key in items && |items| >= 2
    requires newKey !in items && |items| == capacity && node.key == newKey
    ensures Inv(MoveToFront(queue, key), items, capacity)
    ensures key in SetItems(MoveToFront(queue, key), items, capacity, newKey, node)
  {
    assert key in Elems(queue);
    MoveToFrontPermutes(queue, key);
    MoveToFrontLeavesBack(queue, key);
    var q := MoveToFront(queue, key);
    assert Inv(q, items, capacity);
    SetEvictsBack(q, items, capacity, newKey, node);
  }

  /** Unlinking a key and deleting its entry keeps the invariant and shrinks
      the cache by one. */
  lemma DeleteKeepsInv<V>(queue: seq<string>, items: map<string, Node<V>>, capacity: int, key: string)
    requires Inv(queue, items, capacity) && key in items
    ensures Inv(Without(queue, key), items - {key}, capacity)
    ensures |items - {key}| == |items| - 1
  {
    assert key in Elems(queue);
    WithoutSize(queue, key);
  }

  /** The keys a sweep at `now` removes. */
  function ExpiredKeys<V>(items: map<string, Node<V>>, now: int64): set<string>
  {
    set k | k in items && IsSwept(items[k], now)
  }

  /** The map a sweep at `now` leaves: every entry but the expired ones, unchanged. */
  function Sweep<V>(items: map<string, Node<V>>, now: int64): (r: map<string, Node<V>>)
    ensures r.Keys == items.Keys - ExpiredKeys(items, now)
    ensures forall k :: k in r ==> r[k] == items[k]
  {
    map k | k in items && !IsSwept(items[k], now) :: items[k]
  }

  /** A sweep keeps the invariant, and the entry count drops by exactly the
      number of expired keys. */
  lemma SweepKeepsInv<V>(queue: seq<string>, items: map<string, Node<V>>, capacity: int, now: int64)
    requires Inv(queue, items, capacity)
    ensures Inv(Restrict(queue, Sweep(items, now).Keys), Sweep(items, now), capacity)
    ensures |Sweep(items, now)| == |items| - |ExpiredKeys(items, now)|
  {
    var m := Sweep(items, now);
    var e := ExpiredKeys(items, now);
    assert e <= items.Keys;
    assert m.Keys == items.Keys - e;
    assert |m.Keys| == |items.Keys| - |e| by {
      assert items.Keys == m.Keys + e;
      assert m.Keys !! e;
    }
    assert |m| == |m.Keys| && |items| == |items.Keys|;
    DistinctSize(Restrict(queue, m.Keys));
  }

  /** The loop of `DeleteExpired`: examines every entry once, in no
      particular order, unlinks and deletes each one the sweep removes, and
      counts them. */
  method SweepEntries<V>(queue: seq<string>, items: map<string, Node<V>>, now: int64)
    returns (q: seq<string>, m: map<string, Node<V>>, deletedItemsCount: nat)
    requires Elems(queue) == items.Keys
    ensures m == Sweep(items, now)
    ensures q == Restrict(queue, m.Keys)
    ensures deletedItemsCount == |ExpiredKeys(items, now)|
  {
    ghost var expired := ExpiredKeys(items, now);
    RestrictAll(queue, items.Keys);
    q, m, deletedItemsCount := queue, items, 0;
    var unvisited := items.Keys;
    while unvisited != {}
      invariant unvisited <= items.Keys
      invariant m == items - (expired - unvisited)
      invariant q == Restrict(queue, m.Keys)
      invariant deletedItemsCount == |expired - unvisited|
      decreases unvisited
    {
      var key :| key in unvisited;
      var itemNode := m[key];
      var swept := itemNode.expireAt != NO_EXPIRE && itemNode.expireAt < now;
      assert swept <==> key in expired by {
        assert itemNode == items[key];
      }
      SweepStep(expired, unvisited, key, swept);
      if swept {
        RestrictWithout(queue, m.Keys, key);
        MinusOneMore(items, expired - unvisited, key);
        q := Without(q, key);
        m := m - {key};
        deletedItemsCount := deletedItemsCount + 1;
      }
      unvisited := unvisited - {key};
    }
    SweepDone(items, now);
  }

  /** Bookkeeping for one step of the sweep: `expired` are the keys to remove,
      `unvisited` the keys not yet examined, `key` the one examined now. */
  lemma SweepStep(expired: set<string>, unvisited: set<string>, key: string, swept: bool)
    requires key in unvisited
    requires swept <==> key in expired
    ensures swept ==> expired - (unvisited - {key}) == (expired - unvisited) + {key}
    ensures swept ==> |expired - (unvisited - {key})| == |expired - unvisited| + 1
    ensures !swept ==> expired - (unvisited - {key}) == expired - unvisited
  {
  }

  /** Deleting one more key from a map is deleting one more key from its origin. */
  lemma MinusOneMore<V>(m: map<string, Node<V>>, gone: set<string>, key: string)
    ensures (m - gone) - {key} == m - (gone + {key})
  {
  }

  /** Once the sweep has examined every key, what is left is `Sweep`. */
  lemma SweepDone<V>(items0: map<string, Node<V>>, now: int64)
    ensures items0 - ExpiredKeys(items0, now) == Sweep(items0, now)
  {
  }

  // ---------------------------------------------------------------------
  // The engine
  // ---------------------------------------------------------------------

  class LruCache<V> {
    /** The recency list: front is the most recently used key. */
    var queue: seq<string>
    /** Key to stored node. */
    var items: map<string, Node<V>>
    /** Default time-to-live in seconds used by `Set`, or NO_EXPIRE. */
    const expire: int64
    /** The largest number of entries the cache holds. */
    const capacity: int

    ghost predicate Valid()
      reads this
    {
      Inv(queue, items, capacity)
    }

    /** An empty cache with the given bounds. */
    constructor (capacity: int, expire: int64)
      requires 1 <= capacity
      ensures Valid()
      ensures queue == [] && items == map[]
      ensures this.capacity == capacity && this.expire == expire
    {
      this.capacity := capacity;
      this.expire := expire;
      queue := [];
      items := map[];
    }

    /** Looks `key` up at time `now`. A live entry is returned and becomes the
        most recently used; an absent or expired one is reported and nothing
        moves. Reads never remove entries. */
    method Get(key: string, now: int64) returns (r: Result<V>)
      requires Valid()
      modifies this`queue
      ensures Valid() && items == old(items)
      ensures key !in items ==> r == Err(CacheNotFound) && queue == old(queue)
      ensures key in items && !IsLive(items[key], now) ==> r == Err(CacheExpired) && queue == old(queue)
      ensures key in items && IsLive(items[key], now) ==>
                r == Ok(items[key].data) && queue == MoveToFront(old(queue), key)
    {
      if key in items {
        var itemNode := items[key];
        if itemNode.expireAt == NO_EXPIRE || itemNode.expireAt > now {
          assert key in Elems(queue);
          MoveToFrontPermutes(queue, key);
          queue := MoveToFront(queue, key);
          return Ok(itemNode.data);
        } else {
          return Err(CacheExpired);
        }
      }
      return Err(CacheNotFound);
    }

    /** Stores `value` under `key` with the engine's default time-to-live. */
    method Set(key: string, value: V, now: int64)
      requires Valid()
      modifies this`queue, this`items
      ensures Valid()
      ensures queue == SetQueue(old(queue), old(items), capacity, key)
      ensures items == SetItems(old(queue), old(items), capacity, key, Node(value, ExpireAtFor(now, expire), key))
    {
      SetExpireAt(key, value, ExpireAtFor(now, expire));
    }

    /** Stores `value` under `key` with a time-to-live of `expiry` seconds
        (NO_EXPIRE: never expires, whatever the engine default). */
    method SetWithExpire(key: string, value: V, expiry: int64, now: int64)
      requires Valid()
      modifies this`queue, this`items
      ensures Valid()
      ensures queue == SetQueue(old(queue), old(items), capacity, key)
      ensures items == SetItems(old(queue), old(items), capacity, key, Node(value, ExpireAtFor(now, expiry), key))
    {
      SetExpireAt(key, value, ExpireAtFor(now, expiry));
    }

    /** Stores a node with the absolute expiry `expireAt` (the private `set`):
        a new key evicts the back entry when the cache is full and is pushed at
        the front; an existing key has its node replaced and moves to the front. */
    method SetExpireAt(key: string, value: V, expireAt: int64)
      requires Valid()
      modifies this`queue, this`items
      ensures Valid()
      ensures queue == SetQueue(old(queue), old(items), capacity, key)
      ensures items == SetItems(old(queue), old(items), capacity, key, Node(value, expireAt, key))
    {
      ghost var queue0, items0 := queue, items;
      var node := Node(value, expireAt, key);
      SetKeepsInv(queue0, items0, capacity, key, node);
      if key !in items {
        if capacity == |items| {
          var back := queue[|queue| - 1];
          assert back in Elems(queue);
          var tailNode := items[back];
          assert tailNode.key == back;
          queue := queue[..|queue| - 1];
          items := items - {tailNode.key};
        }
        items := items[key := node];
        queue := [key] + queue;
      } else {
        items := items[key := node];
        queue := MoveToFront(queue, key);
      }
    }

    /** The entries that are live at `now`, keyed by their keys; expired
        entries are skipped but not removed, and the recency order is untouched. */
    method GetAll(now: int64) returns (live: map<string, Node<V>>)
      requires Valid()
      ensures forall k :: k in live <==> k in items && IsLive(items[k], now)
      ensures forall k :: k in live ==> live[k] == items[k]
    {
      live := map[];
      var unvisited := items.Keys;
      while unvisited != {}
        invariant unvisited <= items.Keys
        invariant forall k :: k in live <==> k in items && k !in unvisited && IsLive(items[k], now)
        invariant forall k :: k in live ==> live[k] == items[k]
        decreases unvisited
      {
        var key :| key in unvisited;
        var itemNode := items[key];
        if itemNode.expireAt == NO_EXPIRE || itemNode.expireAt > now {
          live := live[key := itemNode];
        }
        unvisited := unvisited - {key};
      }
    }

    /** The number of stored entries, expired-but-unswept ones included. */
    method Count() returns (n: int)
      requires Valid()
      ensures n == |items| && n == |queue|
      ensures n <= capacity
    {
      n := |items|;
    }

    /** Removes `key` from the list and the map, or reports it absent. */
    method Delete(key: string) returns (r: Outcome)
      requires Valid()
      modifies this`queue, this`items
      ensures Valid()
      ensures key in old(items) ==> r == Pass && queue == Without(old(queue), key) && items == old(items) - {key}
      ensures key !in old(items) ==> r == Fail(CacheNotFound) && queue == old(queue) && items == old(items)
    {
      if key in items {
        DeleteKeepsInv(queue, items, capacity, key);
        queue := Without(queue, key);
        items := items - {key};
        return Pass;
      }
      return Fail(CacheNotFound);
    }

    /** Removes every entry whose expiry lies strictly before `now` and reports
        how many went; an empty cache and a sweep that finds nothing are errors. */
    method DeleteExpired(now: int64) returns (r: Result<nat>)
      requires Valid()
      modifies this`queue, this`items
      ensures Valid()
      ensures items == Sweep(old(items), now)
      ensures queue == Restrict(old(queue), items.Keys)
      ensures r == if old(items) == map[] then Err(NoItemsAvailable)
                   else if ExpiredKeys(old(items), now) == {} then Err(NoExpiredItemsFound)
                   else Ok(|ExpiredKeys(old(items), now)|)
    {
      if |items| == 0 {
        assert items == Sweep(items, now);
        RestrictAll(queue, items.Keys);
        return Err(NoItemsAvailable);
      }
      SweepKeepsInv(queue, items, capacity, now);
      var deletedItemsCount: nat;
      queue, items, deletedItemsCount := SweepEntries(queue, items, now);
      if deletedItemsCount > 0 {
        return Ok(deletedItemsCount);
      } else {
        return Err(NoExpiredItemsFound);
      }
    }

    /** The most recently used node, or an error on an empty cache. */
    method HeadNode() returns (r: Result<Node<V>>)
      requires Valid()
      ensures queue == [] ==> r == Err(HeadNodeNotAvailable)
      ensures queue != [] ==> r == Ok(items[queue[0]]) && r.value.key == queue[0]
    {
      if queue == [] {
        return Err(HeadNodeNotAvailable);
      }
      assert queue[0] in Elems(queue);
      return Ok(items[queue[0]]);
    }

    /** The least recently used node (the next eviction victim), or an error
        on an empty cache. */
    method TailNode() returns (r: Result<Node<V>>)
      requires Valid()
      ensures queue == [] ==> r == Err(TailNodeNotAvailable)
      ensures queue != [] ==> r == Ok(items[queue[|queue| - 1]]) && r.value.key == queue[|queue| - 1]
    {
      if queue == [] {
        return Err(TailNodeNotAvailable);
      }
      assert queue[|queue| - 1] in Elems(queue);
      return Ok(items[queue[|queue| - 1]]);
    }
  }
}
