/**
 * The leaky bucket used as a meter: a bucket keeps a fill level (in units
 * of time) that drips away as time passes; cells that fit raise the level,
 * cells that would make it overflow are non-conforming.
 */
module LeakyBucketAlgorithm {
  import opened Common
  import opened Errors
  import opened ThreadSafety

  /** `full` is the bucket's size, `tokenInterval` what one cell adds to the level. */
  datatype LeakyBucket = LeakyBucket(full: Duration, tokenInterval: Duration)

  /** The per-bucket state; `lastUpdate` is `None` until the first admitted cell. */
  datatype BucketState = BucketState(level: Duration, lastUpdate: Option<Instant>)

  /** `BucketState::default()`. */
  const DefaultBucketState: BucketState := BucketState(0, None)

  /** The negative decision: measured at `at`, the batch fits `wait` later. */
  datatype TooEarly = TooEarly(at: Instant, wait: Duration)

  function EarliestPossible(e: TooEarly): Instant { e.at + e.wait }

  lemma ScaledUnitFits(per: nat, capacity: nat, weight: nat)
    requires 1 <= weight <= capacity
    ensures (per * weight) / capacity <= per
  {
    MulLe(per, weight, capacity);
    DivMonotone(per * weight, per * capacity, capacity);
    DivUnique(per * capacity, capacity, per, 0);
  }

  /** The bucket holds one time unit; a cell adds its share of it (truncating division). */
  function Construct(capacity: NonZeroU32, cellWeight: NonZeroU32, perTimeUnit: Duration): (r: Result<LeakyBucket, InconsistentCapacity>)
    ensures r.Err? <==> capacity < cellWeight
    ensures r.Err? ==> r.error == InconsistentCapacity(capacity, cellWeight)
    ensures r.Ok? ==> r.value.full == perTimeUnit && r.value.tokenInterval == (perTimeUnit * cellWeight) / capacity
    ensures r.Ok? ==> r.value.tokenInterval <= r.value.full
  {
    if capacity < cellWeight then
      Err(NewInconsistentCapacity(capacity, cellWeight))
    else
      var tokenInterval := (perTimeUnit * cellWeight) / capacity;
      ScaledUnitFits(perTimeUnit, capacity, cellWeight);
      Ok(LeakyBucket(perTimeUnit, tokenInterval))
  }

  /** The instant a decision is taken at: `t0`, but never before the last update. */
  function EffectiveTime(s: BucketState, t0: Instant): (t: Instant)
    ensures t >= t0 && (s.lastUpdate.Some? ==> t >= s.lastUpdate.value)
    ensures t == t0 || (s.lastUpdate.Some? && t == s.lastUpdate.value)
  {
    Max(t0, s.lastUpdate.GetOr(t0))
  }

  /** The level left after dripping from the last update to the effective time. */
  function DrainedLevel(s: BucketState, t0: Instant): (level: Duration)
    ensures level <= s.level
    ensures s.lastUpdate.None? ==> level == s.level
    ensures s.lastUpdate.Some? && t0 <= s.lastUpdate.value ==> level == s.level
    ensures s.lastUpdate.Some? && t0 >= s.lastUpdate.value ==> level == Max(s.level - (t0 - s.lastUpdate.value), 0)
  {
    var last := s.lastUpdate.GetOr(t0);
    s.level - Min(EffectiveTime(s, t0) - last, s.level)
  }

  /** The decision closure of `test_n_and_update`, for a batch of `n` cells weighing `weight`. */
  function Drip(full: Duration, weight: Duration, n: U32, s: BucketState, t0: Instant)
    : (r: (Result<(), NegativeMultiDecision<TooEarly>>, Option<BucketState>))
    ensures r.1.Some? <==> r.0.Ok?
    ensures r.0.Ok? <==> weight + DrainedLevel(s, t0) <= full
    ensures r.0.Ok? ==> r.1.value.level <= full && r.1.value.lastUpdate == Some(t0)
    ensures r.0.Err? ==> r.0.error.BatchNonConforming? && r.0.error.n == n
    ensures r.0.Err? ==> EffectiveTime(s, t0) < EarliestPossible(r.0.error.nonConformance)
  {
    var level := DrainedLevel(s, t0);
    if weight + level <= full then
      (Ok(()), Some(BucketState(level + weight, Some(t0))))
    else
      (Err(BatchNonConforming(n, TooEarly(EffectiveTime(s, t0), weight + level - full))), None)
  }

  /**
   * `test_n_and_update` as a value: a batch heavier than the whole bucket is
   * refused before the state is looked at; otherwise the decision closure.
   */
  function TestN(lb: LeakyBucket, s: BucketState, n: U32, t0: Instant)
    : (r: (Result<(), NegativeMultiDecision<TooEarly>>, Option<BucketState>))
    ensures r.1.Some? <==> r.0.Ok?
    ensures r.0.Err? ==> r.0.error.n == n
    ensures (r.0.Err? && r.0.error.InsufficientCapacity?) <==> lb.tokenInterval * n > lb.full
    ensures r.0.Ok? <==> lb.tokenInterval * n + DrainedLevel(s, t0) <= lb.full
    ensures r.0.Ok? ==> r.1.value == BucketState(DrainedLevel(s, t0) + lb.tokenInterval * n, Some(t0))
    ensures r.0.Ok? ==> r.1.value.level <= lb.full
    ensures r.0.Err? && r.0.error.BatchNonConforming? ==>
      var e := r.0.error.nonConformance;
      && e.at == EffectiveTime(s, t0)
      && e.wait == lb.tokenInterval * n + DrainedLevel(s, t0) - lb.full
      && t0 <= e.at < EarliestPossible(e)
  {
    var weight := lb.tokenInterval * n;
    if weight > lb.full then
      (Err(InsufficientCapacity(n)), None)
    else
      Drip(lb.full, weight, n, s, t0)
  }

  /** `test_n_and_update`: refuses an oversized batch outright, else measures through the wrapper. */
  method TestNAndUpdate(lb: LeakyBucket, state: ThreadsafeWrapper<BucketState>, n: U32, t0: Instant)
    returns (r: Result<(), NegativeMultiDecision<TooEarly>>)
    modifies state
    ensures r == TestN(lb, old(state.data), n, t0).0
    ensures state.data == Replaced(old(state.data), TestN(lb, old(state.data), n, t0).1)
    ensures r.Err? ==> state.data == old(state.data)
  {
    var full := lb.full;
    var weight := lb.tokenInterval * n;
    if weight > full {
      return Err(InsufficientCapacity(n));
    }
    r := state.MeasureAndReplace(s => Drip(full, weight, n, s, t0));
  }

  /**
   * `last_touched`: the last update (or `now`) plus the time the level needs
   * to drain. By that instant an updated bucket has drained empty.
   */
  function LastTouched(s: BucketState, now: Instant): (lt: Instant)
    ensures lt >= s.lastUpdate.GetOr(now)
    ensures s.lastUpdate.Some? ==> DrainedLevel(s, lt) == 0
  {
    s.lastUpdate.GetOr(now) + s.level
  }

  // ---------------------------------------------------------------------
  // Properties
  // ---------------------------------------------------------------------

  /** A bucket built by `Construct` always has room for a single cell. */
  lemma SingleCellNeverExceedsCapacity(capacity: NonZeroU32, cellWeight: NonZeroU32, perTimeUnit: Duration, s: BucketState, t0: Instant)
    requires Construct(capacity, cellWeight, perTimeUnit).Ok?
    ensures var r := TestN(Construct(capacity, cellWeight, perTimeUnit).value, s, 1, t0);
      r.0.Ok? || r.0.error.BatchNonConforming?
  {
  }

  /** Checking again at the instant a denial names, with nothing in between, admits the batch. */
  lemma RetryAtEarliestPossible(lb: LeakyBucket, s: BucketState, n: U32, t0: Instant)
    requires s.lastUpdate.Some?  // a bucket never updated holds no level, and is never denied
    requires TestN(lb, s, n, t0).0.Err? && TestN(lb, s, n, t0).0.error.BatchNonConforming?
    ensures TestN(lb, s, n, EarliestPossible(TestN(lb, s, n, t0).0.error.nonConformance)).0.Ok?
  {
    var e := TestN(lb, s, n, t0).0.error.nonConformance;
    var t1 := EarliestPossible(e);
    var last := s.lastUpdate.value;
    var w := lb.tokenInterval * n;
    assert w <= lb.full;
    assert DrainedLevel(s, t0) == Max(s.level - (e.at - last), 0);
    assert DrainedLevel(s, t1) == Max(s.level - (e.at - last) - e.wait, 0);
  }

  /**
   * Once `last_touched` has passed, the bucket has drained completely and
   * decides exactly as a fresh one would.
   */
  lemma StaleStateActsFresh(lb: LeakyBucket, s: BucketState, now: Instant, n: U32, t0: Instant)
    requires s.lastUpdate.Some? && t0 >= LastTouched(s, now)
    ensures TestN(lb, s, n, t0) == TestN(lb, DefaultBucketState, n, t0)
  {
  }

  // ---------------------------------------------------------------------
  // Bursts at one instant
  // ---------------------------------------------------------------------

  /**
   * Checks `k` single cells one after another, all at `t0`, each through
   * `test_and_update`; yields how many were admitted and the final state.
   */
  function SameInstantBurst(lb: LeakyBucket, s: BucketState, t0: Instant, k: nat): (r: (nat, BucketState))
    ensures r.0 <= k
    decreases k
  {
    if k == 0 then (0, s)
    else
      var step := TestN(lb, s, 1, t0);
      var rest := SameInstantBurst(lb, Replaced(s, step.1), t0, k - 1);
      ((if step.0.Ok? then 1 else 0) + rest.0, rest.1)
  }

  /** One admitted cell takes one interval off the room left, and one off the count still to come. */
  lemma CountStep(room: int, ti: int, k: nat)
    requires 0 < ti <= room && k > 0
    ensures 1 + (if room - ti < ti then 0 else Min(k - 1, (room - ti) / ti)) == Min(k, room / ti)
  {
    DivStep(room, ti);
    if room - ti < ti {
      DivUnique(room - ti, ti, 0, room - ti);
    }
  }

  /** One cell checked at the instant of the last update: nothing has drained. */
  lemma StepAtLastUpdate(lb: LeakyBucket, level: Duration, t0: Instant)
    ensures var r := TestN(lb, BucketState(level, Some(t0)), 1, t0);
      && (r.0.Ok? <==> level + lb.tokenInterval <= lb.full)
      && r.1 == if level + lb.tokenInterval <= lb.full then Some(BucketState(level + lb.tokenInterval, Some(t0))) else None
  {
    assert DrainedLevel(BucketState(level, Some(t0)), t0) == level;
    assert lb.tokenInterval * 1 == lb.tokenInterval;
  }

  /** A burst whose first cell is admitted: one more than the burst from the raised level. */
  lemma BurstAfterAdmission(lb: LeakyBucket, level: Duration, t0: Instant, k: nat)
    requires k > 0 && level + lb.tokenInterval <= lb.full
    ensures var rest := SameInstantBurst(lb, BucketState(level + lb.tokenInterval, Some(t0)), t0, k - 1);
      SameInstantBurst(lb, BucketState(level, Some(t0)), t0, k) == (1 + rest.0, rest.1)
  {
    StepAtLastUpdate(lb, level, t0);
  }

  /** A burst whose first cell is denied leaves the bucket as it was, so every later cell is denied too. */
  lemma BurstAfterDenial(lb: LeakyBucket, level: Duration, t0: Instant, k: nat)
    requires k > 0 && level + lb.tokenInterval > lb.full
    ensures SameInstantBurst(lb, BucketState(level, Some(t0)), t0, k)
      == SameInstantBurst(lb, BucketState(level, Some(t0)), t0, k - 1)
  {
    StepAtLastUpdate(lb, level, t0);
  }

  /** From a level last updated at `t0` itself, cells fill the bucket one interval at a time. */
  lemma {:induction false} BurstFromLevel(lb: LeakyBucket, level: Duration, t0: Instant, k: nat)
    requires lb.tokenInterval > 0
    decreases k
    ensures SameInstantBurst(lb, BucketState(level, Some(t0)), t0, k).0
      == if level + lb.tokenInterval > lb.full then 0 else Min(k, (lb.full - level) / lb.tokenInterval)
  {
    var ti := lb.tokenInterval;
    if k > 0 {
      if level + ti > lb.full {
        BurstAfterDenial(lb, level, t0, k);
        BurstFromLevel(lb, level, t0, k - 1);
      } else {
        BurstAfterAdmission(lb, level, t0, k);
        BurstFromLevel(lb, level + ti, t0, k - 1);
        CountStep(lb.full - level, ti, k);
      }
    }
  }

  /** A fresh bucket admits `full / tokenInterval` cells at one instant, then denies. */
  lemma FreshBurst(lb: LeakyBucket, t0: Instant, k: nat)
    requires 0 < lb.tokenInterval <= lb.full
    ensures SameInstantBurst(lb, DefaultBucketState, t0, k).0 == Min(k, lb.full / lb.tokenInterval)
  {
    if k > 0 {
      var ti := lb.tokenInterval;
      BurstFromLevel(lb, ti, t0, k - 1);
      var rest := SameInstantBurst(lb, BucketState(ti, Some(t0)), t0, k - 1);
      assert SameInstantBurst(lb, DefaultBucketState, t0, k) == (1 + rest.0, rest.1);
      CountStep(lb.full, ti, k);
    }
  }

  /** Whatever the bucket's history, no more than `full / tokenInterval` cells get through at one instant. */
  lemma {:induction false} BurstBounded(lb: LeakyBucket, s: BucketState, t0: Instant, k: nat)
    requires lb.tokenInterval > 0
    decreases k
    ensures SameInstantBurst(lb, s, t0, k).0 <= lb.full / lb.tokenInterval
  {
    if k > 0 {
      var ti := lb.tokenInterval;
      var step := TestN(lb, s, 1, t0);
      if step.0.Ok? {
        var d := DrainedLevel(s, t0);
        BurstFromLevel(lb, d + ti, t0, k - 1);
        var rest := SameInstantBurst(lb, BucketState(d + ti, Some(t0)), t0, k - 1);
        assert SameInstantBurst(lb, s, t0, k) == (1 + rest.0, rest.1);
        DivStep(lb.full - d, ti);
        DivMonotone(lb.full - d, lb.full, ti);
        DivMonotone(ti, lb.full - d, ti);
        DivUnique(ti, ti, 1, 0);
      } else {
        BurstBounded(lb, s, t0, k - 1);
      }
    }
  }

  /**
   * Two cells per second: each cell adds 500 ms to a 1 s bucket. Two cells
   * at one instant are admitted, the third is denied, and 600 ms later the
   * level has drained to 400 ms, so a cell fits again (level 900 ms).
   */
  lemma TwoPerSecond(t0: Instant)
    ensures Construct(2, 1, NANOS_PER_SECOND) == Ok(LeakyBucket(NANOS_PER_SECOND, 500_000_000))
    ensures var lb := LeakyBucket(NANOS_PER_SECOND, 500_000_000);
      var s1 := TestN(lb, DefaultBucketState, 1, t0);
      var s2 := TestN(lb, s1.1.value, 1, t0);
      && s1.0.Ok? && s2.0.Ok?
      && s2.1 == Some(BucketState(NANOS_PER_SECOND, Some(t0)))
      && TestN(lb, s2.1.value, 1, t0).0.Err?
      && TestN(lb, s2.1.value, 1, t0 + 600_000_000).1 == Some(BucketState(900_000_000, Some(t0 + 600_000_000)))
  {
  }

  /**
   * With a token interval of zero, which `construct` yields when the time
   * unit times the weight is smaller than the capacity, an empty bucket
   * stays empty and admits every cell.
   */
  lemma {:induction false} ZeroIntervalKeepsAdmitting(full: Duration, t0: Instant, k: nat)
    ensures SameInstantBurst(LeakyBucket(full, 0), BucketState(0, Some(t0)), t0, k) == (k, BucketState(0, Some(t0)))
  {
    if k > 0 {
      assert TestN(LeakyBucket(full, 0), BucketState(0, Some(t0)), 1, t0) == (Ok(()), Some(BucketState(0, Some(t0))));
      ZeroIntervalKeepsAdmitting(full, t0, k - 1);
    }
  }

  /**
   * The burst bound needs a positive interval: two billion cells per second
   * make it zero, and a fresh bucket then admits every one of `k` cells at
   * one instant.
   */
  lemma ZeroIntervalBurstUnbounded(t0: Instant, k: nat)
    ensures Construct(2_000_000_000, 1, NANOS_PER_SECOND) == Ok(LeakyBucket(NANOS_PER_SECOND, 0))
    ensures SameInstantBurst(LeakyBucket(NANOS_PER_SECOND, 0), DefaultBucketState, t0, k).0 == k
  {
    if k > 0 {
      assert TestN(LeakyBucket(NANOS_PER_SECOND, 0), DefaultBucketState, 1, t0) == (Ok(()), Some(BucketState(0, Some(t0))));
      ZeroIntervalKeepsAdmitting(NANOS_PER_SECOND, t0, k - 1);
    }
  }
}
