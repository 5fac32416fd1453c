/** Declarations shared by the cache engine: the expiry sentinel and the
    defaults, the stored entry (`Node`), the configuration record handed to
    the factory, and the error values the engine returns instead of raising. */
module Cache {

  /** Go's `int64`, the type of expiry durations and Unix timestamps. */
  newtype int64 = x: int | -0x8000_0000_0000_0000 <= x < 0x8000_0000_0000_0000

  const DEFAULT_CAPACITY: int := 100
  /** Twenty minutes, in seconds. */
  const DEFAULT_EXPIRE: int64 := 1200
  /** Sentinel expiry: the entry (or the default) never expires. */
  const NO_EXPIRE: int64 := -1
  const EVICTION_POLICY_LRU: int := 1

  /** One cached entry: its value, its absolute expiry second (or NO_EXPIRE)
      and its own key, which lets eviction find the map entry from the list. */
  datatype Node<V> = Node(data: V, expireAt: int64, key: string)

  datatype Config = Config(capacity: int, expire: int64, evictionPolicy: int)

  datatype Error =
    | CacheNotFound
    | CacheExpired
    | NoItemsAvailable
    | NoExpiredItemsFound
    | HeadNodeNotAvailable
    | TailNodeNotAvailable

  /** A value or an error, for the operations that return `(T, error)`. */
  datatype Result<T> = Ok(value: T) | Err(error: Error)

  /** A nil or non-nil `error`, for the operations that return only an error. */
  datatype Outcome = Pass | Fail(error: Error)

  /** Go's `+` on `int64`: two's-complement, wrapping on overflow. */
  function AddInt64(a: int64, b: int64): (r: int64)
    ensures -0x8000_0000_0000_0000 <= a as int + b as int < 0x8000_0000_0000_0000 ==>
              r as int == a as int + b as int
    ensures a as int + b as int >= 0x8000_0000_0000_0000 ==>
              r as int == a as int + b as int - 0x1_0000_0000_0000_0000
    ensures a as int + b as int < -0x8000_0000_0000_0000 ==>
              r as int == a as int + b as int + 0x1_0000_0000_0000_0000
  {
    ((a as int + b as int + 0x8000_0000_0000_0000) % 0x1_0000_0000_0000_0000
      - 0x8000_0000_0000_0000) as int64
  }
}
