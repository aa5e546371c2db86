# Per-client token-bucket rate limiter, modelled in Dafny

This project models the rate-limiting engine of a small Go service. Each client
IP gets its own token bucket. A request is admitted only while the bucket still
holds permits, and each admission takes one permit and records when it happened.
A per-IP monitoring step refills a bucket that is not full. When a bucket is
full and has not been taken from for more than a minute, that step evicts the IP.

Two modules follow the two source files:

- `TokenBuckets` (`token_bucket.dfy`), from `internal/token_bucket.go`.
  - `Bucket` is the value of a bucket: `cap`, `insertInterval`, `size` and `lastTakeAt`.
  - The specification functions are `NewBucket`, `Added`, `Incremented`,
    `Decremented`, `Take` and `Takes`.
  - The class `TokenBucket` updates its fields in place. Each method's
    `ensures` ties the new `State()` to one of these functions applied to the
    old state.
- `Limiter` (`limiter.dfy`), from `internal/limiter.go`.
  - `LimiterState` is the value of a limiter: a map from IP to `Bucket`, plus
    the default parameters.
  - The specification functions are `Allowed`, `WithIp`, `Ticked` and `AllowAll`.
  - The class `RateLimiter` holds `limitsByIp: map<string, TokenBucket>`. Its
    `Valid()` says that no two IPs share a bucket object. Its methods tie
    `Abstract()` to the specification functions. They also say which bucket
    objects are kept and which are new.

Time is an integer count of nanoseconds, the unit of Go's `time.Duration`,
measured from Go's zero `time.Time` (January 1 of year 1, UTC). The current time
is an explicit `now` argument, in place of `time.Now()`. A new bucket's
`lastTakeAt` is 0, Go's zero `time.Time` in this count. The idle threshold is
`Minute` = 60·10⁹. Every real clock reading is therefore far above `Minute`, so
a bucket that was never taken from is evicted at its first tick
(`NeverTakenEvictedAtFirstTick`).

The monitoring goroutine becomes `RateLimiter.Tick(ip, now)`: one explicit step
that runs the body of one loop iteration. It requires `ip` to be mapped,
because a monitoring task exists only while its IP is in the map. The task ends
exactly when it deletes its own IP, and nothing else deletes IPs.

The Go code does not reject a capacity that is zero or negative, and neither
does the model. A zero or negative interval is not rejected either, but it makes
the Go code panic in `time.NewTicker` when the bucket's monitoring starts; the
model does not capture that panic (see "Left out"). The bucket invariant `0 <= size <= cap` is
therefore stated as a predicate (`Bounded`, `TokenBucket.Valid`, `Healthy`)
that operations are proved to preserve, not as a precondition.

## Model

| member | source | states |
|---|---|---|
| TokenBuckets.NewBucketIsFull | internal/token_bucket.go:17-23 | A new bucket is full, keeps the given capacity and interval, has `lastTakeAt` 0, and is bounded iff its capacity is non-negative |
| TokenBuckets.TokenBucket.constructor | internal/token_bucket.go:17-23 | The constructed object's state is a new full bucket; it satisfies the bucket invariant iff `cap >= 0` |
| TokenBuckets.TokenBucket.InsertInterval | internal/token_bucket.go:25-27 | Returns the interval the bucket was created with |
| TokenBuckets.TokenBucket.Inc | internal/token_bucket.go:29-33 | `size` grows by exactly 1, with no clamp; nothing else changes |
| TokenBuckets.IncrementedOvershootsFull | internal/token_bucket.go:29-33 | Incrementing a full bucket pushes `size` to `cap + 1`, breaking the bound that `Add` keeps |
| TokenBuckets.TokenBucket.Add | internal/token_bucket.go:35-42 | `size` becomes `min(size + delta, cap)`; `lastTakeAt` and the constants are unchanged; the invariant is kept for `delta >= 0` |
| TokenBuckets.AddedIsClampedSum | internal/token_bucket.go:35-42 | A refill gives `min(size + delta, cap)`, never above `cap`, and changes no other field |
| TokenBuckets.AddedKeepsBounded | internal/token_bucket.go:35-42 | Adding a non-negative amount to a bounded bucket keeps `0 <= size <= cap` and never lowers `size` |
| TokenBuckets.AddingCapFills | internal/token_bucket.go:35-42 | Adding a whole capacity to a non-negative counter makes the bucket exactly full |
| TokenBuckets.TokenBucket.Dec | internal/token_bucket.go:44-50 | `size` drops by 1 and `lastTakeAt` becomes `now` |
| TokenBuckets.TokenBucket.LastTakeAt | internal/token_bucket.go:52-54 | Returns the time of the last successful take |
| TokenBuckets.TokenBucket.AllowTake | internal/token_bucket.go:56-67 | Admits iff `size > 0` beforehand; on admission `size` drops by exactly 1 and `lastTakeAt := now`; on refusal nothing changes; keeps the invariant |
| TokenBuckets.TakeDecides | internal/token_bucket.go:56-67 | A take admits iff `size > 0`; on admission exactly `size` and `lastTakeAt` change; on refusal the bucket is unchanged |
| TokenBuckets.TakeKeepsBounded | internal/token_bucket.go:56-67 | A take never drives a bounded counter negative |
| TokenBuckets.Takes | internal/token_bucket.go:56-67 | A run of takes yields one decision per attempt, never changes capacity or interval, and never raises `size` |
| TokenBuckets.ExactAdmissions | internal/token_bucket.go:56-67 | From `size = n >= 0`, attempt `i` of a run is admitted iff `i < n`; `size` ends at `max(n - k, 0)`; `lastTakeAt` is the time of the last admitted attempt |
| TokenBuckets.FullBucketAdmitsCapacity | internal/token_bucket.go:17-23 | A new bucket of capacity C admits exactly C consecutive takes, refuses the (C+1)-th, and ends empty |
| TokenBuckets.EmptyBucketRefusesAll | internal/token_bucket.go:56-67 | A bucket with `size <= 0` refuses every attempt of a run and is left unchanged |
| TokenBuckets.TokenBucket.IsFull | internal/token_bucket.go:69-77 | Returns true iff `size == cap`, and changes no state (the lock released on both paths, see Findings) |
| TokenBuckets.IsFullAsWritten | internal/token_bucket.go:69-77 | `IsFull` as written answers iff the bucket is full; on the "full" path it returns with one more read holder, on the other it leaves the mutex as it was |
| TokenBuckets.IsFullLeaksReadLock | internal/token_bucket.go:69-77 | As written, `IsFull` on a full bucket with a free mutex answers "full" and keeps one read lock held, so the write lock `Dec` needs (token_bucket.go:45) can no longer be taken, while `AllowTake`'s read lock still can |
| TokenBuckets.IsFullReleasing | internal/token_bucket.go:69-77 | The corrected `IsFull` answers iff the bucket is full and leaves the mutex exactly as it found it |
| TokenBuckets.IsFullReleasingKeepsLockFree | internal/token_bucket.go:69-77 | The corrected `IsFull` keeps a free mutex free and gives the same answer as the code as written |
| TokenBuckets.AddedAsWritten | internal/token_bucket.go:35-42 | `Add` on 64-bit `int` as written: the result never exceeds `cap`, is either `cap` or a 64-bit value, and only `size` changes |
| TokenBuckets.Wrap64 | internal/token_bucket.go:37 | Two's-complement truncation: the result lies in the 64-bit range, is congruent to the input modulo 2^64, and equals the input when that already fits |
| TokenBuckets.RefillWrapsNearMaxInt64 | internal/token_bucket.go:35-42 | With 64-bit `int` as written, a new bucket of capacity MaxInt64 is not full after one admitted take, and its refill by `cap` leaves `size == -3` |
| TokenBuckets.AddedAsWrittenAgrees | internal/token_bucket.go:35-42 | Whenever `size + delta` fits in 64 bits, the Go computation equals the model's clamped sum |
| TokenBuckets.AddedFitsInt64 | internal/token_bucket.go:35-42 | The model's clamped refill of a bounded 64-bit bucket by a non-negative 64-bit amount always fits in 64 bits and never lowers `size` |
| Limiter.RateLimiter.constructor | internal/limiter.go:15-21 | A new limiter has an empty map and the given defaults |
| Limiter.RateLimiter.Allow | internal/limiter.go:23-38 | The result and new state equal `Allowed`. For a mapped IP the map, including bucket identities, is unchanged. For an unseen IP exactly one fresh bucket is added under that IP |
| Limiter.FirstAllow | internal/limiter.go:28-37 | For an unseen IP, a default bucket is installed, one take happens, and the first request is admitted iff `defaultAllowRequests > 0` |
| Limiter.AllowMapped | internal/limiter.go:23-37 | For a mapped IP the key set is unchanged, and the decision and new bucket are that bucket's own take |
| Limiter.AllowOtherKeys | internal/limiter.go:23-38 | A request for IP `a` neither adds, removes nor changes the entry of any IP `b != a` |
| Limiter.AllowAll | internal/limiter.go:23-38 | A run of requests for one IP yields one decision per request, keeps the defaults, and adds at most that IP to the keys |
| Limiter.AllowAllTakes | internal/limiter.go:23-38 | A run of requests for one IP is exactly that IP's bucket (existing or default) running the same takes, stored back under the IP |
| Limiter.ExhaustingOneKeySparesOthers | internal/limiter.go:23-38 | After any run of requests for `a`, a request for `b != a` is decided exactly as before, against the same bucket |
| Limiter.FreshKeyAdmissions | internal/limiter.go:28-37 | With default capacity C, consecutive requests for an unseen IP are admitted exactly for the first C (none when C <= 0) |
| Limiter.RateLimiter.AddIp | internal/limiter.go:40-52 | The new state equals `WithIp`. For a mapped IP nothing changes, so the first registration wins. For an unseen IP exactly one fresh bucket is added |
| Limiter.WithIpFirstWins | internal/limiter.go:40-47 | Registering an IP that is already mapped leaves the limiter unchanged, so existing parameters are never updated |
| Limiter.WithIpInstallsFull | internal/limiter.go:49-50 | Registering an unseen IP adds exactly that key, with a full bucket of the given capacity and interval, and no other entry changes |
| Limiter.SecondRegistrationIgnored | internal/limiter.go:40-50 | Registering "B" with capacity 1 and then with capacity 100 keeps capacity 1: the first request is admitted and the second is refused |
| Limiter.RateLimiter.Tick | internal/limiter.go:62-77 | The result and new state equal `Ticked`. The map loses exactly `ip` when the task stops and is otherwise unchanged |
| Limiter.TickRefills | internal/limiter.go:76-77 | A tick on a not-full bucket with a non-negative counter refills it to exactly `cap`, keeps the keys, and does not stop the task |
| Limiter.TickEvictsOnlyFullAndIdle | internal/limiter.go:63-74 | A tick removes the IP iff the bucket is full and `now > lastTakeAt + 1 minute`, and the task stops iff it removes it. A full bucket that is not idle is left unchanged, with the corrected `IsFull`. No other key is added or removed |
| Limiter.NeverTakenEvictedAtFirstTick | internal/limiter.go:63-72 | A full bucket whose `lastTakeAt` is still the zero time is evicted by any tick later than one minute after that zero time |
| Limiter.RegisteredThenTickedEvicts | internal/limiter.go:49-72 | An IP registered by `AddIp` and ticked before any request, at any real time, is evicted, and the map returns to what it was before the registration |
| Limiter.TickOtherKeys | internal/limiter.go:68-70 | A tick of one IP neither adds, removes nor changes any other IP's entry |
| Limiter.AllowAfterEviction | internal/limiter.go:28-35 | After an eviction, the next request for that IP behaves like a first-ever request: it uses a fresh default bucket and is admitted iff the default capacity is positive |
| Limiter.OperationsKeepHealthy | internal/limiter.go:23-77 | Requests, ticks and registrations with a non-negative capacity keep every bucket bounded, given a non-negative default capacity |
| Limiter.BurstThenRefill | cmd/main.go:13-14 | With the service's configuration (5 requests per 10 s), 7 rapid requests from any start time give 5 admissions then 2 refusals; after one refilling tick ten seconds later the next request is admitted |

## Left out

- Locking (`sync.Mutex`, `sync.RWMutex`), the goroutine and the ticker. The model is sequential: every operation runs atomically and alone. It therefore cannot express these races in the source:
  - the read of `size` and the later `Dec` in `AllowTake` are not one atomic step;
  - `Dec` writes `lastTakeAt` outside the lock;
  - two `Allow` calls can both create a bucket for the same new IP.
- TokenBuckets.TokenBucket.IsFull: models the intended `IsFull` that releases its read lock on both paths. As written, `IsFull` returns while still holding the read lock when the bucket is full. This is not a race, but it is latent in the program as written: `IsFull` is called only from the monitoring goroutine (limiter.go:63), which never receives a tick because of the `defer ticker.Stop()` at limiter.go:58. Once ticks do arrive (for example with that `defer` removed), a single caller suffices: after a tick that finds the bucket full but not idle, the next admitted request for that IP blocks forever in `Dec`'s `Lock`, and so do later requests. `RateLimiter.Tick`, `RateLimiter.Allow` and `TickEvictsOnlyFullAndIdle` describe the corrected behaviour and serve that request; the lock state is modelled only by `IsFullAsWritten` and `IsFullReleasing` (see Findings).
- Limiter.RateLimiter.Allow: does not model the panic of `time.NewTicker` for a zero or negative interval. For an unseen IP with such a default interval, the Go code installs the bucket (limiter.go:31) and then panics in `runBucketMonitoring` (limiter.go:34, 57) without returning a decision; the model installs the bucket and returns the take.
- Limiter.RateLimiter.AddIp: does not model the same panic for a zero or negative `interval`. The Go code installs the bucket (limiter.go:50) and then panics (limiter.go:51, 57); the model installs the bucket and returns normally.
- Tick scheduling. `runBucketMonitoring` stops its ticker with `defer` as soon as it returns, right after starting the goroutine, so in the Go code the goroutine never receives a tick. The model does not claim that refills happen by themselves. `RateLimiter.Tick` is the body of one iteration of the loop, run only when it is called. `Allow` and `AddIp` start no monitoring.
- Wall-clock time. `time.Now()` becomes the `now` argument, and `time.Time` becomes an integer count of nanoseconds.
- TokenBuckets.TokenBucket.Inc: does not model the wrap-around (64-bit on 64-bit platforms) of `size++` at MaxInt64. `Inc` is not called anywhere in the core.
- TokenBuckets.TokenBucket.Add: computes `size + delta` on unbounded integers, i.e. the corrected behaviour. The 64-bit wrap-around of the code as written is modelled separately by `AddedAsWritten` (see Findings).
- `cmd/main.go`, the HTTP middleware and the extraction of a client IP from request headers are not part of this model.

## Findings

| source | as written | input that shows it | evidently intended | confidence | as-written member | corrected member |
|---|---|---|---|---|---|---|
| internal/token_bucket.go:35-42 | `t.size += delta` runs on Go's `int` (64 bits on 64-bit platforms) and wraps before the clamp to `cap`, so the monitor's refill `Add(tb.cap)` can overflow | latent: `Add` is called only from the monitoring goroutine (limiter.go:77), which never receives a tick because of the `defer ticker.Stop()` at limiter.go:58. Once ticks arrive (for example with that `defer` removed): a bucket registered with `cap` = MaxInt64 (allowed by `AddIp`) after one admitted request holds MaxInt64 - 1 tokens, the refill gives `size` = -3, and the IP is refused until later ticks climb back | a refill saturates at `cap`, so a refilled bucket is full | not executed; latent in the program as written; needs a capacity above 2^62 on 64-bit platforms (above 2^30 where `int` has 32 bits) | TokenBuckets.RefillWrapsNearMaxInt64 (over `AddedAsWritten`) | TokenBuckets.AddedFitsInt64 (over `Added`, the refill the model uses) |
| internal/token_bucket.go:69-77 | `IsFull` returns `true` at line 72 while holding the read lock taken at line 70, which is never released | latent: `IsFull` is called only from the monitoring goroutine (limiter.go:63), which never receives a tick because of the `defer ticker.Stop()` at limiter.go:58. Once ticks arrive (for example with that `defer` removed): one tick on a full, recently used bucket (limiter.go:63, 74), then one request for that IP; `AllowTake` sees tokens and calls `Dec`, whose `Lock` (token_bucket.go:45) waits forever for the leaked read lock | `IsFull` releases the read lock before returning on both paths | not executed; latent in the program as written; once ticks arrive, one tick on a full bucket that is not idle suffices | TokenBuckets.IsFullLeaksReadLock (over `IsFullAsWritten`) | TokenBuckets.IsFullReleasingKeepsLockFree (over `IsFullReleasing`) |
