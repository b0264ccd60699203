# TTL cache and request attribute store, modelled in Dafny

This project models two parts of a Go toolkit.

- **The TTL key/value cache** (`cache/mycache.go`). It is a map from string keys to entries (`Item`). Each entry holds a value and an absolute expiration in nanoseconds, where 0 means "never". One mutex guards the map. An optional eviction callback is called when `Delete` or the expiration sweep removes a present entry.
- **The per-request attribute store** (`context/context.go`). It has two package-level tables: `data` maps each request to its key/value map, and `datat` maps each request to the time its map was created. An age-based `Purge` counts what it removes.

Layout:

- `wrappers.dfy`, module `Wrappers`: `Option`, for the Go code's `(value, ok)` and nil-error results.
- `numeric.dfy`, module `Numeric`: Go's integer kinds and their fixed-width wraparound. `Wrap` reduces a number to a kind's width. The lemmas prove four things: `Wrap` gives the unique in-range value congruent to its argument; converting the delta first (Go's `int8(n)`) and then adding with wraparound is the same as wrapping the exact sum; the same holds for subtraction; and adding then subtracting the same delta is the identity.
- `entry.dfy`, module `Entry`: stored values (`Object`: an integer of some kind, a float, or an opaque value), entries, and the two expiry tests:
  - `Item.Expired`, which tests `expiration != 0`;
  - `LiveForGet`, the test of `get` and `GetWithExpiration`, which tests `expiration > 0`.

  The module also holds the expiration that `Set` computes, and the values that `Increment` and `Decrement` store.
- `cache.dfy`, module `TtlCache`: the cache as a class. Its fields are `items`, `defaultExpiration`, a `locked` flag standing for the mutex, a counter `unlockFaults` of unlocks of a free mutex, the registered callback `onEvicted`, and `notices`, the log of calls made to the callback. Every operation states the new map, the new lock state and the calls it makes.
- `context.dfy`, module `RequestContext`: the two tables as a class with fields `data` and `datat`. It keeps the invariant `data.Keys == datat.Keys`.
- `scenarios.dfy`, module `Scenarios`: short runs on fresh objects, each with its outcome stated as a postcondition.

The clock (`time.Now()`) is an explicit parameter `now`. The callback is named by a number, and a call to it is recorded as a `Notice`; what the callback does is not modelled. Both parts are modelled as single-threaded.

## Behaviour modelled as the code has it

- `Increment` returns without unlocking on its not-found branch and on its not-numeric branch. Its contract says so (`locked` stays true), and no later operation can then be called. `Decrement` unlocks on every path.
- `DeleteExpired` unlocks explicitly and again through `defer`. Every sweep therefore ends with one unlock of a free mutex (`unlockFaults` grows by one). In Go this is a fatal error.
- The two expiry tests differ on negative expirations, which come from `NewFrom`, or from a `Set`, `Add` or `Replace` whose expiry lies past the year 2262 (Go's int64 nanosecond count then wraps negative). `Get`, `Increment`, `Decrement`, `Items` and `DeleteExpired` treat such an entry as expired. `get`, `GetWithExpiration`, `Add` and `Replace` treat it as live. `Scenarios.NegativeExpirationSplit` shows `Get` missing a key that `Add` refuses. Without int64 overflow, entries written by `Set` at a non-negative time never have a negative expiration (`Entry.WrittenEntryLifetime`).
- `Add` and `Replace` decide liveness with `get`, not with `Item.Expired`.
- `Decrement`'s non-numeric error has its own message ("not an integer"), separate from `Increment`'s "not numeric". The model has one error variant for each.

## Model

| member | source | states |
|---|---|---|
| `Numeric.WrapFacts` | cache/mycache.go:166-187 | A wrapped value lies in its kind's range and has the same remainder modulo 2^w as the exact value |
| `Numeric.WrapUnique` | cache/mycache.go:166-187 | Any in-range value congruent to x is `Wrap(k, x)`: the fixed-width result is determined uniquely |
| `Numeric.WrapCongruent` | cache/mycache.go:166-187 | Arguments congruent modulo 2^w wrap to the same value |
| `Numeric.ConvertedSum` | cache/mycache.go:166-187 | Converting the int64 delta to the kind and then adding with wraparound equals the exact sum reduced to the kind's width |
| `Numeric.ConvertedDifference` | cache/mycache.go:209-230 | The same for subtraction |
| `Numeric.WrapInRange` | cache/mycache.go:174-175 | Wrapping a value already in range, such as an int64 delta for an int64 entry, leaves it unchanged |
| `Numeric.AddSubtractInverse` | cache/mycache.go:158-242 | For every value of a kind, subtracting n after adding n with wraparound gives the value back, and so does adding n after subtracting n |
| `Numeric.Wrap` | cache/mycache.go:166-187 | Reduction of the exact result to the kind's width, two's complement for signed kinds: what Go's conversions and fixed-width `+` and `-` do (its facts are `Numeric.WrapFacts` and `Numeric.WrapUnique`) |
| `Entry.Item.Expired` | cache/mycache.go:18-23 | An entry is expired when its expiration is nonzero and now lies after it; a negative expiration lapses too |
| `Entry.Item.LiveForGet` | cache/mycache.go:148-152 | The test of `get` and `GetWithExpiration`: only a positive expiration that now lies after makes the entry miss |
| `Entry.EffectiveTtl` | cache/mycache.go:45-47 | The duration `DefaultExpiration` (0) stands for the cache's default duration; any other duration is used as given |
| `Entry.ExpirationFor` | cache/mycache.go:44-50 | A positive effective duration expires at now plus that duration; any other is stored as 0, never expiring (its consequences are `Entry.WrittenEntryLifetime`) |
| `Entry.ExpiryTestsAgree` | cache/mycache.go:18-23 | For a non-negative expiration, `Item.Expired` and the `> 0` test of `get` classify the entry identically |
| `Entry.ExpiryTestsDisagreeOnNegative` | cache/mycache.go:142-155 | A negative expiration that `now` has passed is expired for `Item.Expired` and live for `get` |
| `Entry.WrittenEntryLifetime` | cache/mycache.go:43-74 | An entry written at time now with duration d is expired at t exactly when its effective duration (the default when d is 0) is positive and t > now + duration. `NoExpiration` never lapses. Without int64 overflow, the expiration written is never negative, so both expiry tests agree on it |
| `Entry.Incremented` | cache/mycache.go:165-194 | Fails exactly on a non-numeric value. An integer becomes `Wrap(kind, value + n)` of the same kind. A float keeps its float kind |
| `Entry.Decremented` | cache/mycache.go:208-238 | Fails exactly on a non-numeric value. An integer becomes `Wrap(kind, value - n)` of the same kind. A float keeps its float kind |
| `Entry.IncrementDecrementInverse` | cache/mycache.go:158-242 | On an integer value, decrementing by n undoes incrementing by n and the other way round, overflow included |
| `Entry.Uint8Wraps` | cache/mycache.go:180-181 | A uint8 holding 255 wraps to 0 when incremented by 1, and back when decremented |
| `Entry.IntCounterExample` | cache/mycache.go:166-167 | An int holding 10, incremented by 5, holds 15; that value decremented by 20 holds -5 |
| `TtlCache.Unexpired` | cache/mycache.go:276-283 | What a sweep keeps: a sub-map of the entries, none of them expired, whose keys together with the expired keys make up every key |
| `TtlCache.NoticesFor` | cache/mycache.go:286-288 | Each collected pair becomes one call of the registered callback, in order. Reading the key and value back from the calls gives the pairs unchanged |
| `TtlCache.UnexpiredSize` | cache/mycache.go:316-334 | Live entries plus expired keys make up the whole map. The live count equals the raw count exactly when nothing has expired |
| `TtlCache.SweepNoticesCount` | cache/mycache.go:271-289 | With a callback registered, a sweep's notices carry exactly the expired keys, one notice per expired entry |
| `TtlCache.Cache.constructor` | cache/mycache.go:375-386 | A default duration of 0 becomes -1 (no expiration). The entries are taken as given, and a Dafny map is never nil. The mutex is free and no callback is registered |
| `TtlCache.Cache.Lock` | cache/mycache.go:245 | Taking the mutex: it must be free and ends held |
| `TtlCache.Cache.Unlock` | cache/mycache.go:247 | Releasing the mutex: it ends free, and releasing a free one counts one fault |
| `TtlCache.Cache.Evict` | cache/mycache.go:249-251 | One call of the registered callback appends exactly one notice carrying the callback, the key and the value |
| `TtlCache.Cache.SetLocked` | cache/mycache.go:61-74 | With the lock held, key is overwritten by an entry expiring at `now + d` for a positive effective duration, else never. Nothing else changes |
| `TtlCache.Cache.Set` | cache/mycache.go:43-58 | The same as `set`, taking and releasing the lock. No notice is produced |
| `TtlCache.Cache.SetDefault` | cache/mycache.go:76-78 | `Set` with the default duration |
| `TtlCache.Cache.GetLocked` | cache/mycache.go:142-155 | With the lock held, finds the value exactly when key is present and live by the `> 0` test |
| `TtlCache.Cache.Add` | cache/mycache.go:80-90 | Fails with `AlreadyExists` exactly when `get` finds key, and then leaves the map as it was. Otherwise writes as `Set` does. The lock is released on both paths |
| `TtlCache.Cache.Replace` | cache/mycache.go:92-102 | Fails with `DoesNotExist` exactly when `get` does not find key, and then leaves the map as it was. Otherwise writes as `Set` does |
| `TtlCache.Cache.Get` | cache/mycache.go:104-115 | Returns the stored value exactly when key is present and not expired by `Item.Expired`, otherwise none |
| `TtlCache.Cache.GetWithExpiration` | cache/mycache.go:117-139 | Finds key as `get` does. It also reports the expiration instant when that is positive, and Go's zero Time otherwise |
| `TtlCache.Cache.Increment` | cache/mycache.go:158-199 | A missing or expired key gives `NotFound`, and a non-numeric value gives `NotNumeric`. Both leave the map unchanged and the mutex still held. Otherwise the value becomes `Incremented` of the old one with the same expiration, no other key changes, and the mutex is released |
| `TtlCache.Cache.Decrement` | cache/mycache.go:201-242 | The same with `Decremented`, `NotFound` and `NotAnInteger`, releasing the mutex on every path |
| `TtlCache.Cache.DeleteLocked` | cache/mycache.go:254-264 | Removes key. Returns the prior value exactly when a callback is registered and key was present |
| `TtlCache.Cache.Delete` | cache/mycache.go:244-252 | Removes key whether expired or not. Calls the callback once with `(key, prior value)` exactly when one is registered and key was present. Deleting an absent key changes nothing |
| `TtlCache.Cache.SweepLocked` | cache/mycache.go:276-283 | Removes exactly the expired entries. With a callback registered, collects each removed key once with its value; otherwise collects nothing |
| `TtlCache.Cache.NotifyEvicted` | cache/mycache.go:286-288 | Calls the callback once per collected pair, in order |
| `TtlCache.Cache.DeleteExpired` | cache/mycache.go:271-289 | Keeps exactly the unexpired entries. Appends one notice per removed entry with its value, or none without a callback. Ends with the mutex free and one unlock of a free mutex |
| `TtlCache.Cache.OnEvicted` | cache/mycache.go:291-295 | The given callback replaces any earlier one |
| `TtlCache.Cache.Items` | cache/mycache.go:316-328 | Returns a new map holding exactly the unexpired entries, unchanged: the live view `Unexpired` of the map, so `UnexpiredSize` relates its size to `ItemCount` |
| `TtlCache.Cache.ItemCount` | cache/mycache.go:330-334 | Returns the raw size of the map, expired entries included |
| `TtlCache.Cache.Flush` | cache/mycache.go:336-340 | Empties the map and makes no callback call |
| `RequestContext.PurgePartition` | context/context.go:100-109 | The stale requests and the kept requests are disjoint and together make up all requests, so Purge's count plus what remains is what was there |
| `RequestContext.Context.Valid` | context/context.go:34-37 | The two tables hold the same requests: a request gets its attribute map and its timestamp together |
| `RequestContext.Context.constructor` | context/context.go:13-17 | Both tables start empty, so they share the same set of requests |
| `RequestContext.Context.Get` | context/context.go:19-28 | Returns the value of key in r's map; nil when r has no map or key is missing |
| `RequestContext.Context.GetOK` | context/context.go:42-52 | Reports found exactly when r has a map holding key, with that value; otherwise nil and false |
| `RequestContext.Context.GetAll` | context/context.go:54-68 | Returns a copy equal to r's map, or nil when r is unknown |
| `RequestContext.Context.Set` | context/context.go:30-40 | Stores val under key in r's map. Creates the map and stamps it with now only on the first Set for r. Other requests are untouched. Keeps both tables on the same requests |
| `RequestContext.Context.Delete` | context/context.go:70-77 | Removes key from r's map only and keeps r's stamp. Does nothing when r is unknown |
| `RequestContext.Context.Clear` | context/context.go:79-89 | Removes r from both tables |
| `RequestContext.Context.Purge` | context/context.go:91-110 | A non-positive maxAge empties both tables and returns the number of requests. Otherwise removes exactly the requests stamped before now - maxAge from both tables and returns how many it removed |
| `Scenarios.AddTwice` | cache/mycache.go:80-90 | A second Add of a live key fails with `AlreadyExists`, and Get still returns the first value |
| `Scenarios.ExpiryOverTime` | cache/mycache.go:43-58 | An entry set for 5 ns is found at its expiration and not after. A `NoExpiration` entry is found arbitrarily later |
| `Scenarios.CounterRoundTrip` | cache/mycache.go:158-242 | Set 10, Increment 5, Decrement 20 stores 15 and then -5, both of kind int |
| `Scenarios.MissingKeyLocks` | cache/mycache.go:158-162 | Decrement of a missing key can be repeated. Increment of a missing key leaves the mutex held |
| `Scenarios.NotNumericKeepsValue` | cache/mycache.go:192-193 | Increment of a non-numeric value fails with `NotNumeric`, keeps the entry and leaves the mutex held |
| `Scenarios.DeleteNotifiesFlushDoesNot` | cache/mycache.go:244-264 | Delete of a present key calls the callback once with its value. Delete of an absent key and Flush call it not at all |
| `Scenarios.SweepOnce` | cache/mycache.go:271-289 | A sweep removes only the lapsed entry, notifies once, and ends with one unlock of a free mutex |
| `Scenarios.NegativeExpirationSplit` | cache/mycache.go:142-155 | An entry with expiration -1 is not found by Get, yet Add refuses its key |
| `Scenarios.RequestLifecycle` | context/context.go:30-110 | A second Set keeps the first stamp. Get and GetOK see the latest value. Purge removes the request only once its stamp is older than the age limit |

## Left out

- The janitor (`janitor.Run`, `RunJanitor`, `StopJanitor`), the ticker, the stop channel and `runtime.SetFinalizer` (cache/mycache.go:342-373, 388-397): these are background concurrency and garbage-collector hooks. Only the synchronous `DeleteExpired` sweep is modelled.
- Map sharing in `NewFrom`: `newCache` stores the caller's map itself (cache/mycache.go:382), so every later write by the cache shows in the caller's map and every write by the caller shows in the cache. The constructor takes the map as a value and keeps its own copy, so the model does not capture this aliasing.
- A nil entry map: `NewFrom` with a nil map leaves `items` nil, and a later `Set`, `set` or successful `Add`/`Replace` panics ("assignment to entry in nil map"). A Dafny map is never nil, so the constructor always receives a usable map and the model has no such panic.
- Unhashable keys in context/context.go: keys are `interface{}`, and `ctx[key]`, `data[r][key] = val` and `delete(ctx, key)` panic when a key's dynamic type is a slice, map or function. `Any` values are always comparable, so the model has no such panic.
- `NewCache`, `NewFrom` and `newCacheWithJanitor`: apart from starting the janitor, they only call `newCache`, which is the class constructor. The exported `Cache` wrapper type, which embeds `*cache`, is not modelled separately.
- `Save`: it depends on `encoding/gob` type registration and panic recovery in that library.
- Float arithmetic in `Increment`/`Decrement`. A float value records the deltas applied to it instead of a computed sum, so rounding is not modelled.
- `Entry.Incremented`: for a float value it promises only that the result is a float of the same kind, because float addition is not modelled.
- `Entry.Decremented`: for a float value it promises only that the result is a float of the same kind, for the same reason.
- Concurrency: reader/writer lock contention, the read locks of `Get`, `GetWithExpiration`, `Items` and `ItemCount` (taken and released within the call, so they leave no state), and the mutex of context/context.go, including the immediate `RUnlock` in `GetOK` and `GetAll`. The write mutex of the cache is modelled as a flag only.
- What the eviction callback does: a call is recorded as a notice. A callback that re-enters the cache is not modelled.
- The clock: `time.Now()` becomes the parameter `now`. In the source, `DeleteExpired` and `Items` read the clock once per entry; the model reads it once per call.
- Overflow of int64 timestamps and durations: `now + d` and `now - maxAge` are unbounded integers. In Go, an expiry past the year 2262 (for example a duration of `math.MaxInt64`) wraps to a negative expiration, which triggers the split between the two expiry tests described above. The model does not produce such expirations through `Set`, `Add` or `Replace`. Go's `int`, `uint` and `uintptr` are taken as 64 bits wide.
- Map iteration order: `DeleteExpired`, `Items`, `GetAll` and `Purge` visit keys in an arbitrary order (`:|`), and their contracts do not depend on it.
- The lock-free `clear` of context/context.go is folded into `Clear`, because the store's mutex is not modelled.
- `ClearHandler` (an HTTP handler wrapper), grpcpool/pool.go (a network connection pool), logger/logger.go and example/log_example.go (logging I/O): these are not part of this model.
