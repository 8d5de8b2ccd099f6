# ratelimit_meter in Dafny

A model of the decision core of `ratelimit_meter`, a Rust rate-limiting
library. It covers:

- the two metering algorithms:
  - GCRA, the virtual-scheduling form of the Generic Cell Rate Algorithm of ITU-T Recommendation I.371;
  - the leaky bucket used as a meter;
- the always-admitting example algorithm, `Allower`;
- the glue that derives single-cell decisions from batch decisions;
- the state wrapper through which every decision reads and replaces a bucket's state, in its three variants:
  - mutex;
  - single-threaded `RefCell`;
  - `no_std` `Option`;
- the direct and keyed rate limiters and their builders;
- the error values and their display texts;
- the fake clock.

Time is integral. An instant is an `int` number of nanoseconds and a
duration is a `nat`. `u32` and `NonZeroU32` are subset types. The library
is generic over its algorithm through a trait. Here the three algorithms
form a closed sum (`Algorithms.Algorithm`), and every front-end operation
dispatches on it.

Each algorithm's decision is a pure function. It returns the decision and
an optional new state, exactly as the closure the library hands to
`measure_and_replace` does. The methods that update a wrapper in place are
proved against these functions. The properties are lemmas about the
functions:

- retrying at the announced instant succeeds;
- a same-instant burst is bounded when a cell costs a positive time;
- a stale state acts like a fresh one;
- a denial leaves the state untouched;
- the display texts are unambiguous.

When no algorithm is named, limiters run the leaky bucket
(`Algorithms.DefaultAlgorithm`, the `DefaultAlgorithm` alias at
src/algorithms.rs:20).

The keyed limiter's map is a `map` field that its methods reassign.
`cleanup_at` is two loops: one collects the expireable keys and one
removes them.

## Behaviour of the code as written

The model follows the code in each of these points.

- GCRA admits `tau / t + 1` cells at one instant, because the first cell is free.
  - With 5 cells per second, 6 get through (`GcraAlgorithm.FivePerSecond`).
  - With 20 per second, 21 get through (`GcraAlgorithm.TwentyPerSecond`, which matches the example in the GCRA documentation).
- GCRA's denial carries `NotUntil(tat)`. The earliest instant at which a cell really conforms is `tat - tau`, so the reported instant is late by `tau`. Retrying at it still succeeds (`GcraAlgorithm.EarliestPossibleIsLate`).
- A denial never changes the stored state, for either algorithm. A leaky bucket that admits stores `t0` as given as its last update, not the clamped effective time.
- Several behaviours of GCRA batches:
  - A batch is measured from the TAT plus `t·(n-1)` and is charged `t·n` on top of that.
  - `last_touched`'s promise ("behaves as a new limiter afterwards") therefore holds for single cells and for leaky-bucket batches, but not for GCRA batches of two or more (`GcraAlgorithm.StaleBatchDiffersFromFresh`).
  - A batch of `n = 0` is always admitted and resets the TAT to `t0`.
- The burst bounds need a positive cell cost, and `construct` does not ensure one. The per-cell cost is a truncating division, so when the time unit in nanoseconds is smaller than the capacity it is zero. The same happens for the leaky bucket when the time unit times the weight is smaller than the capacity.
  - At two billion cells per second, both algorithms admit every cell of a same-instant burst, however many there are (`GcraAlgorithm.ZeroCostBurstUnbounded`, `LeakyBucketAlgorithm.ZeroIntervalBurstUnbounded`).
- A keyed entry whose state is still the default never expires in a cleanup at the current time: `last_touched` falls back to the clock reading (`Keyed.DefaultStateNeverExpires`). Such an entry appears when a key's only checks were refused before its state was touched.
- Both builders check the weight that was set before against the capacity, not the new weight.
  - The keyed builder's error reports the new weight.
  - The direct builder's error reports the old weight.
  - An oversized weight is accepted and then refused by `build` (`Keyed.OversizedWeightCaughtAtBuild`).

## Model

| member | source | states |
|---|---|---|
| Errors.NewInconsistentCapacity | src/errors.rs:12-19 | the error holds exactly the capacity and weight it was given |
| Errors.ParseDecimalOfNatToString | src/errors.rs:21-29 | the decimal rendering of a number reads back as that number (so distinct numbers render differently) |
| Errors.DisplayInconsistentCapacity | src/errors.rs:21-29 | the text opens with "bucket capacity " and its final digits read back as the weight |
| Errors.DisplayInconsistentCapacityInjective | src/errors.rs:21-29 | "bucket capacity {c} too small for a single cell with weight {w}": equal texts come only from equal (capacity, weight) pairs |
| Errors.DisplayNegativeMultiDecisionDistinguishes | src/errors.rs:59-73 | "{n} cells: {e}" and "bucket does not have enough capacity to accomodate {n} cells": the text determines which outcome it is and the cell count |
| Errors.DisplayNegativeMultiDecision | src/errors.rs:59-73 | a text is never empty, and it opens with a digit exactly when the batch was non-conforming |
| Clock.DurationSince | src/clock.rs:36-40 | defined only when `earlier <= self`; adding the result to `earlier` gives `self` |
| Clock.FakeRelativeClock.constructor | src/clock.rs:45-48 | a default fake clock reads zero |
| Clock.FakeRelativeClock.Advance | src/clock.rs:51-55 | `now` grows by exactly the given amount |
| Clock.FakeRelativeClock.Now | src/clock.rs:60-62 | returns the stored reading and changes nothing |
| ThreadSafety.Replaced | src/thread_safety.rs:91-96 | a proposed `Some(x)` becomes the stored value; `None` keeps the current one |
| ThreadSafety.ThreadsafeWrapper.constructor | src/thread_safety.rs:19-27 | a new wrapper holds the wrapped type's default |
| ThreadSafety.ThreadsafeWrapper.MeasureAndReplace | src/thread_safety.rs:87-97 | returns `f`'s decision on the stored value and stores `f`'s proposal only when it is `Some` |
| ThreadSafety.ThreadsafeWrapper.Snapshot | src/thread_safety.rs:107-110 | returns the stored value and modifies nothing |
| ThreadSafety.ThreadsafeWrapper.Equals | src/thread_safety.rs:30-42 | two wrappers are equal exactly when their contents are; the identity shortcut agrees with that |
| NoSync.SingleThreadedWrapper.constructor | src/thread_safety/no_sync.rs:4-10 | the derived default holds the wrapped type's default |
| NoSync.SingleThreadedWrapper.MeasureAndReplace | src/thread_safety/no_sync.rs:37-46 | returns `f`'s decision; stores `x` on `Some(x)`, changes nothing on `None` |
| NoSync.SingleThreadedWrapper.Snapshot | src/thread_safety/no_sync.rs:56-58 | returns the stored value |
| NoStd.ThreadsafeWrapper.constructor | src/thread_safety/no_std.rs:3-9 | a new wrapper stores nothing |
| NoStd.ThreadsafeWrapper.Current | src/thread_safety/no_std.rs:26 | an absent value reads as the default; a stored one reads as itself |
| NoStd.ThreadsafeWrapper.MeasureAndReplace | src/thread_safety/no_std.rs:22-32 | returns `f`'s decision on the current value; `Some(x)` stores `x`, `None` leaves the field as it was |
| NoStd.ThreadsafeWrapper.Snapshot | src/thread_safety/no_std.rs:37-39 | the current value, so the default for a never-written wrapper |
| GcraAlgorithm.Construct | src/algorithms/gcra.rs:141-154 | fails with `InconsistentCapacity(capacity, weight)` iff capacity < weight; otherwise `t = (per / capacity) * weight` (truncating) and `tau = per`, and `t <= tau` |
| GcraAlgorithm.DecideOne | src/algorithms/gcra.rs:166-173 | admitted iff `t0 >= tat - tau` (a missing TAT reads as `t0`, so a fresh state always admits); admission stores `max(tat, t0) + t`; denial stores nothing and returns `NotUntil(tat)`, which lies after `t0` |
| GcraAlgorithm.DecideN | src/algorithms/gcra.rs:190-221 | a new TAT is proposed iff the batch is admitted; `InsufficientCapacity(n)` iff `n >= 2` and `t·n > tau`; `n = 0` admits and stores `t0`; a batch denial names an instant after `t0`; for `n >= 1` that is not too large, the batch is measured from `eff = TAT-or-t0 + t·(n-1)`: it is admitted iff `t0 >= eff - tau`; if so, it stores `max(eff, t0) + t·n`; if not, it is denied with `BatchNonConforming(n, NotUntil(eff))`; an admitted batch moves the TAT at least `t·n` past both `t0` and the old TAT |
| GcraAlgorithm.TestAndUpdate | src/algorithms/gcra.rs:159-174 | returns the one-cell decision and stores what it proposes, through the wrapper |
| GcraAlgorithm.TestNAndUpdate | src/algorithms/gcra.rs:182-222 | returns the batch decision; the stored TAT changes only on admission |
| GcraAlgorithm.LastTouched | src/algorithms/gcra.rs:43-48 | the TAT (or `now`) plus `tau`: never before the TAT, and at that instant a single cell is decided and stored as on a fresh bucket |
| GcraAlgorithm.ShareOfUnitFits | src/algorithms/gcra.rs:150-151 | one cell's cost never exceeds the time unit when weight <= capacity |
| GcraAlgorithm.RetryAtEarliestPossible | src/algorithms/gcra.rs:64-68 | after a one-cell denial, a retry at its `earliest_possible` is admitted |
| GcraAlgorithm.BatchRetryAtEarliestPossible | src/algorithms/gcra.rs:205-220 | after a batch denial, the same batch at its `earliest_possible` is admitted |
| GcraAlgorithm.EarliestPossibleIsLate | src/algorithms/gcra.rs:166-173 | the instant a denial names is the TAT itself, while a cell at `TAT - tau` already conforms |
| GcraAlgorithm.StaleStateActsFresh | src/algorithms/gcra.rs:43-48 | from `last_touched` on, a single cell (or an empty batch) is decided and stored as for a fresh state |
| GcraAlgorithm.StaleBatchDiffersFromFresh | src/algorithms/gcra.rs:190-221 | a two-cell batch after `last_touched` stores a different TAT than on a fresh state |
| GcraAlgorithm.BurstFromScheduled | src/algorithms/gcra.rs:166-173 | from a TAT `x >= t0`, `k` same-instant cells admit `min(k, (t0 + tau - x)/t + 1)` (none if `x - tau > t0`), each moving the TAT by `t` |
| GcraAlgorithm.FreshBurst | src/algorithms/gcra.rs:166-173 | a fresh bucket admits `min(k, tau/t + 1)` of `k` same-instant cells |
| GcraAlgorithm.BurstBounded | src/algorithms/gcra.rs:166-173 | from any state, at most `tau/t + 1` same-instant cells are admitted |
| GcraAlgorithm.TwentyPerSecond | src/algorithms/gcra.rs:111-123 | 20 cells/s: 21 cells admitted at one instant, the next denied, admitted again 50 ms later |
| GcraAlgorithm.FivePerSecond | src/algorithms/gcra.rs:146-173 | 5 cells/s: 6 admitted at one instant; the 7th is denied with `NotUntil(t0 + 1.2 s)`, yet admitted at `t0 + 200 ms` |
| GcraAlgorithm.ZeroCostKeepsAdmitting | src/algorithms/gcra.rs:166-173 | with a cell cost of zero, every one of `k` cells at the TAT is admitted and the TAT stays put |
| GcraAlgorithm.ZeroCostBurstUnbounded | src/algorithms/gcra.rs:141-173 | two billion cells per second construct a cost of zero, and a fresh bucket then admits all `k` cells at one instant |
| GcraAlgorithm.TwoPerSecondBatches | tests/keyed.rs:58-72 | 2 cells/s: a batch of 2 is admitted (TAT `t0 + 1.5 s`), denied 1 ms later with `NotUntil(t0 + 2 s)`, admitted 1 s after the first; an empty batch is admitted |
| LeakyBucketAlgorithm.Construct | src/algorithms/leaky_bucket.rs:122-136 | fails iff capacity < weight; otherwise `full = per` and `token_interval = (per·weight)/capacity`, which is at most `full` |
| LeakyBucketAlgorithm.EffectiveTime | src/algorithms/leaky_bucket.rs:154-158 | the decision instant is `t0` or the last update, and never before either |
| LeakyBucketAlgorithm.DrainedLevel | src/algorithms/leaky_bucket.rs:159-161 | the drained level never exceeds the stored one, is `max(level - elapsed, 0)` when time moved forward, and is the stored level when `t0` is not after the last update (time travel does not drain) |
| LeakyBucketAlgorithm.Drip | src/algorithms/leaky_bucket.rs:149-175 | all or nothing; admitted iff the weight fits on top of the drained level; an admission never overfills the bucket and records `t0`; a denial is `BatchNonConforming(n, _)` whose earliest instant lies after the effective time |
| LeakyBucketAlgorithm.TestN | src/algorithms/leaky_bucket.rs:138-176 | `InsufficientCapacity(n)` iff `token_interval·n > full`; admitted iff weight plus drained level fits in `full`, storing that level (at most `full`) with last update `t0`; a denial stores nothing and returns `TooEarly(effective time, overflow)` whose earliest instant lies after the effective time |
| LeakyBucketAlgorithm.TestNAndUpdate | src/algorithms/leaky_bucket.rs:138-176 | returns the decision; the state changes only on admission |
| LeakyBucketAlgorithm.LastTouched | src/algorithms/leaky_bucket.rs:63-68 | the last update (or `now`) plus the level: never before the last update, and by then an updated bucket has drained empty |
| LeakyBucketAlgorithm.SingleCellNeverExceedsCapacity | src/algorithms/leaky_bucket.rs:127-147 | for a bucket `construct` built, one cell is never refused as `InsufficientCapacity` |
| LeakyBucketAlgorithm.RetryAtEarliestPossible | src/algorithms/leaky_bucket.rs:95-100 | after a batch denial, the same batch at `earliest_possible` is admitted |
| LeakyBucketAlgorithm.StaleStateActsFresh | src/algorithms/leaky_bucket.rs:63-68 | from `last_touched` on, any batch is decided and stored as for a fresh state |
| LeakyBucketAlgorithm.BurstFromLevel | src/algorithms/leaky_bucket.rs:149-164 | from a level updated at `t0`, `k` same-instant cells admit `min(k, (full - level)/token_interval)` (none if even one does not fit) |
| LeakyBucketAlgorithm.FreshBurst | src/algorithms/leaky_bucket.rs:149-164 | a fresh bucket admits `min(k, full/token_interval)` of `k` same-instant cells |
| LeakyBucketAlgorithm.BurstBounded | src/algorithms/leaky_bucket.rs:149-164 | from any state, at most `full/token_interval` same-instant cells are admitted |
| LeakyBucketAlgorithm.TwoPerSecond | src/algorithms/leaky_bucket.rs:122-176 | 2 cells/s: two cells admitted at one instant, the third denied, and 600 ms later a cell fits at level 900 ms |
| LeakyBucketAlgorithm.ZeroIntervalKeepsAdmitting | src/algorithms/leaky_bucket.rs:149-175 | with a token interval of zero, an empty bucket admits every one of `k` cells at one instant and stays empty |
| LeakyBucketAlgorithm.ZeroIntervalBurstUnbounded | src/algorithms/leaky_bucket.rs:122-175 | two billion cells per second construct an interval of zero, and a fresh bucket then admits all `k` cells at one instant |
| ExampleAlgorithms.Construct | src/example_algorithms.rs:53-59 | never fails |
| ExampleAlgorithms.TestN | src/example_algorithms.rs:61-69 | every batch is admitted |
| ExampleAlgorithms.DurationSince | src/example_algorithms.rs:78-82 | always zero |
| Algorithms.DefaultState | src/algorithms/gcra.rs:31-35 | the `Default` bucket state belongs to the algorithm: GCRA has no TAT yet, and the leaky bucket is empty and never updated (src/algorithms/leaky_bucket.rs:108-115) |
| Algorithms.Construct | src/algorithms.rs:74-81 | fails iff the algorithm can fail and capacity < weight, with that pair; a success has the requested kind and consistent parameters |
| Algorithms.WaitTimeFrom | src/algorithms.rs:43-46 | zero once `from` reaches `earliest_possible`, otherwise exactly the gap to it |
| Algorithms.TestN | src/algorithms.rs:83-95 | all or nothing: a negative outcome stores nothing; it carries the cell count; a stored state stays the algorithm's |
| Algorithms.SingleFromBatch | src/algorithms.rs:108-115 | `Ok` stays `Ok`; `BatchNonConforming(1, nc)` becomes `Err(nc)`; other outcomes are excluded |
| Algorithms.SingleCellNeverInsufficient | src/algorithms.rs:111-115 | the excluded case cannot arise for consistent parameters |
| Algorithms.DefaultTestOne | src/algorithms.rs:103-116 | admits exactly when the one-cell batch does, and stores what it stores |
| Algorithms.TestOne | src/algorithms.rs:97-116 | a denial stores nothing and names an instant after `at` |
| Algorithms.GcraOverrideAgreesWithDefault | src/algorithms.rs:103-116 | GCRA's own `test_and_update` equals the default delegation |
| Algorithms.RetryAfterWaitTime | src/algorithms.rs:37-46 | after a one-cell denial at `at`, a retry after `wait_time_from(at)` is admitted |
| Algorithms.FirstCellAdmitted | src/algorithms.rs:60-65 | a default bucket state admits its first cell at any instant |
| Algorithms.AllowerAdmitsEverything | src/example_algorithms.rs:61-69 | the `Allower` admits every cell and batch and keeps its state |
| Algorithms.TestNAndUpdate | src/algorithms.rs:83-95 | returns the batch decision; the wrapper changes only on admission |
| Algorithms.TestAndUpdate | src/algorithms.rs:97-116 | GCRA measures its own closure, the others delegate to a batch of one; the wrapper changes only on admission |
| Direct.DirectRateLimiter.New | src/state/direct.rs:56-62 | weight 1 always constructs; the state starts as the default |
| Direct.DirectRateLimiter.PerSecond | src/state/direct.rs:88-90 | `new` with a one-second time unit |
| Direct.DirectRateLimiter.CheckAt | src/state/direct.rs:141-143 | the algorithm's `test_and_update` result and effect on the limiter's state |
| Direct.DirectRateLimiter.CheckNAt | src/state/direct.rs:147-153 | the algorithm's `test_n_and_update` result and effect; a denial leaves the state alone |
| Direct.AllowerRateLimiter | src/example_algorithms.rs:24-27 | a per-second direct limiter running the `Allower` |
| Direct.Builder.BuildWithCapacity | src/state/direct.rs:94-101 | weight 1 and a one-second time unit by default |
| Direct.Builder.CellWeight | src/state/direct.rs:174-186 | errors iff the current weight exceeds capacity (reporting the current weight, weight unchanged); otherwise stores the new weight; nothing else changes |
| Direct.Builder.Per | src/state/direct.rs:192-195 | changes only the time unit |
| Direct.Builder.Build | src/state/direct.rs:198-207 | the construction error is returned as is; otherwise a fresh limiter with the constructed algorithm and a default state |
| Keyed.SaturatingSub | src/state/keyed.rs:296 | `at - d`, floored at the clock's origin |
| Keyed.DefaultStateNeverExpires | src/state/keyed.rs:286-300 | a key whose state is still the default is never expireable in a cleanup at the current time, whatever `min_age` is |
| Keyed.ExpiredStateActsFresh | src/state/keyed.rs:50-55 | a key the cleanup would expire decides its next cell (at or after the threshold) exactly as a fresh key |
| Keyed.ExpiredStateActsFreshForBatch | src/state/keyed.rs:50-55 | the same for batches under the leaky bucket and the `Allower` |
| Keyed.KeyedRateLimiter.StateOf | src/state/keyed.rs:170-186 | a known key's stored state, or the default for a new key; it always belongs to the algorithm |
| Keyed.KeyedRateLimiter.New | src/state/keyed.rs:118-135 | weight 1 always constructs; no keys yet |
| Keyed.KeyedRateLimiter.PerSecond | src/state/keyed.rs:153-155 | `new` with a one-second time unit |
| Keyed.KeyedRateLimiter.CheckAndUpdateKey | src/state/keyed.rs:166-187 | returns the update's decision on the key's state; a new key gets a default state that is inserted whatever the decision; no other key changes |
| Keyed.KeyedRateLimiter.CheckAt | src/state/keyed.rs:229-235 | `test_and_update` on that key's state only |
| Keyed.KeyedRateLimiter.CheckNAt | src/state/keyed.rs:240-247 | `test_n_and_update` on that key's state only |
| Keyed.KeyedRateLimiter.CollectExpireable | src/state/keyed.rs:290-301 | lists each key whose `last_touched` is before the threshold, once, and no other key |
| Keyed.KeyedRateLimiter.CleanupAt | src/state/keyed.rs:281-311 | returns exactly the keys whose `last_touched` is before `at - min_age` (saturating; `min_age` defaults to 0, `at` to now), removes exactly those, and leaves every other key's state as it was |
| Keyed.DefaultBuilder | src/state/keyed.rs:333-343 | capacity 1, weight 1, one second and no map capacity, a combination that always constructs |
| Keyed.BuildWithCapacity | src/state/keyed.rs:159-164 | the defaults with the given capacity, which always construct |
| Keyed.WithCellWeight | src/state/keyed.rs:369-377 | errors iff the previous weight exceeds capacity, reporting the new weight; otherwise only the weight changes |
| Keyed.WithMapCapacity | src/state/keyed.rs:381-386 | only the map-capacity hint changes |
| Keyed.OversizedWeightCaughtAtBuild | src/state/keyed.rs:369-377 | a weight above capacity passes `with_cell_weight` but makes construction fail |
| Keyed.Build | src/state/keyed.rs:394-418 | the construction error as is; otherwise a fresh, empty limiter with the constructed algorithm |

## Left out

- Concurrency. This covers:
  - the mutexes, `Arc` sharing and `evmap`'s eventually consistent read and write handles;
  - the race between `cleanup_at` and concurrent checks.

  Each `measure_and_replace` is one atomic sequential step, and the keyed map is a plain `map` of state values.
- Aliasing of shared states. The library's bucket states are wrapper handles that `evmap` shallow-copies. The keyed model stores values and writes the updated value back, which is the same as long as each key has one state.
- Duration arithmetic overflow. Integers are unbounded, so the model does not capture the panics that `Duration * u32` and `Instant - Duration` raise on overflow or underflow.
- Instants before the clock's origin. `Keyed.SaturatingSub` floors at zero, as `saturating_sub` does for durations measured from an origin.
- Real clocks (`Instant::now`, `SystemTime::now`) and the clock-reading `check`, `check_n` and `cleanup` wrappers. Every operation takes its instant as an argument, and `cleanup_at` takes the clock reading as `now`.
- Jitter. It is random and uses floating point.
- The keyed builder's hasher and clock choices (`with_hasher`, `using_clock`), and the `evmap` capacity itself. Only the `map_capacity` hint is recorded.
- `Debug` and `Display` of `NotUntil` and `TooEarly`. The error texts are modelled with the instant's formatting passed in as a function.
- `Impossible`. It has no values, and a Dafny datatype needs a constructor, so `ExampleAlgorithms.Impossible` has one that nothing builds.
- `Always` arithmetic (`+`, `-`) and the `Allower`'s `last_touched`. `Always` has a single value, so each of them can only return it. `Keyed.Expireable` treats the `Allower`'s keys as never expiring, since `Always < Always` is false.
- The display text of `Impossible` ("can't happen"). No value of that type is ever built, so the text is never shown.
- Batch decisions under the three-algorithm sum. The leaky bucket's early `InsufficientCapacity` return happens inside the wrapper call in `Algorithms.TestNAndUpdate`. It happens before the call in `LeakyBucketAlgorithm.TestNAndUpdate`. In both places it stores nothing.
- Older-API files (`src/implementation.rs`, `src/algorithms/allower.rs`, `src/algorithms/threadsafe.rs`, `src/errors/mod.rs`, `src/algorithms/mod.rs`) and module wiring. These are not part of this model.
