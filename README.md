# GenericCache with sliding time-to-live, and its prime-number client

This project models `GenericCache<K,V>` from the crac4 demo. It is an in-memory key/value cache. Each key maps to a
`CacheValue`: the value plus `outdatedAt`, the epoch second after which the entry may be evicted.

- `put` stores an entry with deadline `now + cacheTimeout`.
- `get` returns the value and pushes that entry's deadline `cacheTimeout` seconds further, counted from the current
  deadline, not from `now`.
- `containsKey`, `remove`, `clear` and `size` are plain operations on the mapping.
- `clean` is the sweep. It removes every key whose deadline lies strictly before `now`.

The model also covers the consumer `Main.isPrime`. It is a trial-division primality test that memoises its verdicts in
a `GenericCache<Long, Boolean>`.

Layout:

- `cache.dfy`, module `Cache`: the `CacheValue` datatype. It holds pure functions describing each operation's effect
  on the mapping (`Lookup`, `ExpiredKeys`, `Sweep`, `Renew`, `Shifted`) and lemmas about them. It also holds the class
  `GenericCache`. Its field `entries` is the source's `map` field, renamed because `map` is a Dafny keyword. Its
  methods are proved against those functions.
- `primes.dfy`, module `Primes`: the trial-division loop (`TrialDivision`), the memoising `IsPrime`, and the memo
  invariant `MemoSound`.
- `scenarios.dfy`, module `Scenarios`: two client runs that use only the contracts. One is a sliding time-to-live run
  (a read moves the deadline from 10 to 20, whatever the time of the read). The other is a pause from 18 to 118 that ends with the
  deadline shift.

Time is an integer parameter `now` (epoch seconds) wherever the source samples `Instant.now()`. The periodic sweep is
an explicit call to `Clean(now)`.

The restore hook is modelled as `BeforeCheckpoint` and `AfterRestore`. In `GenericCache.java` all of lines 61-86 are
commented out, because Java block comments do not nest. So this hook is not live code in the source. It is included
because it is the cache's answer to mass eviction after a pause: it shifts every deadline by the time spent paused.

The model follows the code where it departs from the intended design of the cache:

- No construction parameter is validated. A zero or negative timeout is accepted.
- The pause shift is commented out.
- The checkpoint hook's bounded wait for the sweeper is commented out too.
- The class comment promises that values not read within `cacheTimeout` are removed. That holds only for an entry that
  was never read (`UnreadEntryLifetime`). A read adds `cacheTimeout` to the old deadline, not to the time of the read.
  So an entry that has been read expires at its accumulated deadline, `now + (j + 1) * cacheTimeout` after `j` reads,
  whenever those reads happened (`ReadEntryLifetime`). For example, with timeout 10, an entry put at 0 and read at 1
  survives a sweep at 20 after 19 unread seconds (`ReadDoesNotRestartClock`).

## Model

| member | source | states |
|---|---|---|
| `Cache.CacheValue.GetValue` | src/main/java/eu/hansolo/crac4/GenericCache.java:129-132 | Reading returns the stored value and keeps it in the entry. The entry is outdated at `t + cacheTimeout` exactly when it was outdated at `t`, so its whole expiry moves `cacheTimeout` later. |
| `Cache.Lookup` | src/main/java/eu/hansolo/crac4/GenericCache.java:92 | `get` yields a value exactly when the key is present, and the value is the stored one. |
| `Cache.ExpiredKeys` | src/main/java/eu/hansolo/crac4/GenericCache.java:104-110 | The collected keys are keys of the mapping: exactly those whose deadline is strictly before the sweep's single `now`. |
| `Cache.Sweep` | src/main/java/eu/hansolo/crac4/GenericCache.java:100 | After a sweep, a key survives exactly when it was present with deadline `>= now`, so an entry due at `now` survives. No key is added and surviving entries are untouched. |
| `Cache.Renew` | src/main/java/eu/hansolo/crac4/GenericCache.java:92 | A read keeps the key set. It changes no other entry. It keeps the read entry's value and moves its deadline by exactly `cacheTimeout` from the old deadline. An absent key changes nothing. |
| `Cache.Shifted` | src/main/java/eu/hansolo/crac4/GenericCache.java:78-80 | The restore shift keeps the key set and every value, and moves every deadline by exactly `delta`. |
| `Cache.RepeatedReads` | src/main/java/eu/hansolo/crac4/GenericCache.java:129-131 | `j` consecutive reads of a present key move its deadline by `j * cacheTimeout` and change nothing else. Reads of an absent key leave the mapping as it was. |
| `Cache.SweepIdempotent` | src/main/java/eu/hansolo/crac4/GenericCache.java:100-108 | A second sweep at the same instant changes nothing. |
| `Cache.SweepMonotone` | src/main/java/eu/hansolo/crac4/GenericCache.java:110 | A sweep at a later instant keeps a subset of what a sweep at an earlier instant keeps. |
| `Cache.UnreadEntryLifetime` | src/main/java/eu/hansolo/crac4/GenericCache.java:112 | An entry put at `now` and never read survives every sweep up to `now + cacheTimeout`. Every later sweep removes it. |
| `Cache.ReadEntryLifetime` | src/main/java/eu/hansolo/crac4/GenericCache.java:129-131 | An entry put at `now` and then read `j` times survives a sweep at `s` exactly when `s <= now + (j + 1) * cacheTimeout`, whatever the times of the reads. |
| `Cache.ReadDoesNotRestartClock` | src/main/java/eu/hansolo/crac4/GenericCache.java:26-28 | Against the class comment's promise: with a timeout above 1, an entry read one second after its put is still kept by a sweep at `now + 2 * cacheTimeout`, although it has been unread for longer than `cacheTimeout`. |
| `Cache.GoneStaysGone` | src/main/java/eu/hansolo/crac4/GenericCache.java:100 | Once a key is absent, no later sweep-then-read step brings it back, because reads never create an entry. |
| `Cache.ReadsKeepEntryAlive` | src/main/java/eu/hansolo/crac4/GenericCache.java:24-28 | Sliding time-to-live: each step is a sweep followed by a read. If every step comes by the deadline the entry has at that point, no sweep evicts it. It ends with its value and with its deadline extended once per read. Since an evicted key never returns (`GoneStaysGone`), no sweep along the way removed it. A sweep at the read's instant is the worst case: by `SweepMonotone`, any extra sweep earlier than that keeps the entry too. |
| `Cache.ReadGapsWithinTimeout` | src/main/java/eu/hansolo/crac4/GenericCache.java:24-28 | Reads at most `cacheTimeout` apart, the first one by the deadline, all come in time, so the entry is never evicted. |
| `Cache.ShiftPreservesExpiredKeys` | src/main/java/eu/hansolo/crac4/GenericCache.java:73-80 | After shifting by `now - checkpointAt`, a sweep at `now` collects exactly the keys that a sweep at `checkpointAt` would have collected. So nothing alive at the checkpoint is evicted on resume. |
| `Cache.SweepAfterShift` | src/main/java/eu/hansolo/crac4/GenericCache.java:73-80 | Sweeping after the restore shift equals sweeping at the checkpoint instant and then shifting. |
| `Cache.GenericCache.constructor` | src/main/java/eu/hansolo/crac4/GenericCache.java:47-58 | The cache starts empty (`Size() == 0`) with the given timeout and initial delay. |
| `Cache.GenericCache.Default` | src/main/java/eu/hansolo/crac4/GenericCache.java:33-46 | The no-argument constructor gives an empty cache with delay 30 and timeout 60. |
| `Cache.GenericCache.ContainsKey` | src/main/java/eu/hansolo/crac4/GenericCache.java:90 | True exactly when `get` would find an entry. It also reports entries that are outdated but not yet swept. It reads the state and renews nothing. |
| `Cache.GenericCache.Size` | src/main/java/eu/hansolo/crac4/GenericCache.java:102 | The number of keys held, outdated ones included. It is zero exactly when the cache is empty. |
| `Cache.GenericCache.CreateCacheValue` | src/main/java/eu/hansolo/crac4/GenericCache.java:112 | A new entry holds the value and is outdated exactly at the instants after `now + cacheTimeout`. |
| `Cache.GenericCache.Get` | src/main/java/eu/hansolo/crac4/GenericCache.java:92 | Returns the stored value or None. The new mapping is `Renew` of the old one: an absent key changes nothing, and a present one gains exactly `cacheTimeout` on its deadline. |
| `Cache.GenericCache.Put` | src/main/java/eu/hansolo/crac4/GenericCache.java:94 | The key maps to the value with deadline `now + cacheTimeout`, replacing any previous entry. Other entries are unchanged. The size grows by one exactly when the key was new. |
| `Cache.GenericCache.Remove` | src/main/java/eu/hansolo/crac4/GenericCache.java:96 | The key is gone and the other entries are unchanged. On an absent key it does nothing, and the size stays the same. |
| `Cache.GenericCache.Clear` | src/main/java/eu/hansolo/crac4/GenericCache.java:98 | The cache is empty and its size is 0. |
| `Cache.GenericCache.Clean` | src/main/java/eu/hansolo/crac4/GenericCache.java:100-108 | Removing the collected keys one by one leaves exactly `Sweep(old, now)`. Afterwards no remaining entry is outdated at `now`. |
| `Cache.GenericCache.BeforeCheckpoint` | src/main/java/eu/hansolo/crac4/GenericCache.java:62-64 | (Commented-out hook) Records the checkpoint instant and changes nothing else. |
| `Cache.GenericCache.AfterRestore` | src/main/java/eu/hansolo/crac4/GenericCache.java:71-80 | (Commented-out hook) Updating the entries one at a time leaves exactly the mapping shifted by `now - checkpointAt`. |
| `Primes.NoProperDivisorIsPrimality` | src/main/java/eu/hansolo/crac4/Main.java:122-128 | For numbers above 1, trial division finds no divisor exactly when the number is prime. |
| `Primes.SmallNumbersReportedPrime` | src/main/java/eu/hansolo/crac4/Main.java:122-128 | For 0, 1 and negative numbers the loop finds no divisor, so the verdict is "prime" although these numbers are not prime. |
| `Primes.TrialDivision` | src/main/java/eu/hansolo/crac4/Main.java:122-128 | The down-counting loop with its early exit returns false exactly when some `n` with `1 < n < number` divides `number`. |
| `Primes.MemoSoundPreserved` | src/main/java/eu/hansolo/crac4/Main.java:121-130 | Renewing a cached verdict, or storing the trial-division verdict, keeps every cached verdict equal to the trial-division verdict. |
| `Primes.MemoSoundUnderEviction` | src/main/java/eu/hansolo/crac4/GenericCache.java:98-100 | An empty cache holds only correct verdicts. A sweep or a `remove` of a cache that holds only correct verdicts leaves it that way. So the periodic sweep never makes `isPrime` answer wrongly. |
| `Primes.IsPrime` | src/main/java/eu/hansolo/crac4/Main.java:120-131 | On a hit, returns the cached verdict and renews the entry. On a miss, stores and returns the trial-division verdict with deadline `now + cacheTimeout`. Either way the number is cached afterwards. If the cache held only correct verdicts, the answer is the trial-division verdict and the cache still holds only correct verdicts. |

## Left out

- The background sweep scheduler (`scheduleAtFixedRate` with interval 1 s and the initial delay) and Main's 5-second workload timer. The sweep is the explicit `Clean(now)`; the initial delay is kept only as a ghost field.
- The wall clock: `Instant.now()` is replaced by the parameter `now`. `isExpired` samples the clock once per key in the source; the model judges a whole sweep against one instant.
- Concurrency: the model is sequential. So it leaves out these races: the parallel stream in `getExpiredKeys`, a sweep removing a key between `containsKey` and `get` in `isPrime` (where `Optional.get()` would throw), `isExpired` reading a key removed meanwhile, readers holding the old map after `clear()`, and the sweep's own race: a key collected by `getExpiredKeys` is still removed even if a `get` renews it or a `put` replaces it before the removal.
- Cache.GenericCache.Size: does not model the saturation of `ConcurrentHashMap.size()` at 2^31 - 1, because the model's integers are unbounded.
- Cache.GenericCache.Put: does not model 64-bit `long` overflow of `now + cacheTimeout`. Deadlines are unbounded integers, and the same holds for `Get`'s extension and the restore shift.
- Null keys, which `ConcurrentHashMap` rejects with an exception, have no counterpart in the model. Null values are accepted in the source, because the map holds a non-null `CacheValue` wrapping them: `put(k, null)` succeeds, `containsKey(k)` is then true, and `get(k)` renews the deadline but returns an empty `Optional`. Dafny's `V` has no null, so the model does not represent this "present but `get` empty" state.
- The CRaC plumbing: registering with the global context, `Core.checkpointRestore`, the executor shutdown and 5-second `awaitTermination` in the commented-out hook, and `Main.beforeCheckpoint`/`afterRestore`, which only set a flag and print.
- Main's I/O and timing: the directory creation, the shutdown hook, `cleanCracFilesFolder`, `PropertyManager`, console output, `Random` and the warm-up threshold check in `checkForPrimes`.
- `CacheValue.setValue` is never called. `Constants.java` holds only property-key strings. `Cache.java` holds only the interface signatures.
- `IsPrime` takes the cache as a parameter; in the source it is Main's `primeCache` field.
