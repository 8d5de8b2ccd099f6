/**
 * The keyed rate limiter: one algorithm, and a bucket state per key that
 * is created on the key's first check and can be expired once stale.
 */
module Keyed {
  import opened Common
  import opened Errors
  import opened ThreadSafety
  import opened Algorithms
  import GcraAlgorithm
  import LeakyBucketAlgorithm

  /** `Instant::saturating_sub`: instants do not go below the clock's origin. */
  function SaturatingSub(at: Instant, d: Duration): (r: Instant)
    ensures r == if at - d < 0 then 0 else at - d
  {
    Max(at - d, 0)
  }

  /**
   * Whether a state's `last_touched` lies strictly before `threshold`; the
   * clock reading `now` stands in for an instant the state does not have.
   * The `Allower`'s only instant is `Always`, its `last_touched` is
   * `Always`, and `Always < Always` is false, so its keys never expire.
   */
  predicate Expireable(alg: Algorithm, s: AlgState, threshold: Instant, now: Instant)
    requires Matches(alg, s)
  {
    match alg
    case GcraAlg(g) => GcraAlgorithm.LastTouched(g, s.tat, now) < threshold
    case LeakyAlg(_) => LeakyBucketAlgorithm.LastTouched(s.bucket, now) < threshold
    case AllowerAlg(_) => false
  }

  /**
   * A key whose state is still the default (its only checks were refused
   * before the state was touched) falls back to the clock reading in
   * `last_touched`, so a cleanup at the current time never removes it,
   * whatever `min_age` is.
   */
  lemma DefaultStateNeverExpires(alg: Algorithm, minAge: Duration, now: Instant)
    requires Consistent(alg) && now >= 0
    ensures !Expireable(alg, DefaultState(alg), SaturatingSub(now, minAge), now)
  {
  }

  /**
   * A key expired by the cleanup can be dropped safely: its next check, at
   * or after the threshold, decides and stores exactly as a fresh state's.
   */
  lemma ExpiredStateActsFresh(alg: Algorithm, s: AlgState, threshold: Instant, now: Instant, at: Instant)
    requires Matches(alg, s) && Consistent(alg)
    requires Expireable(alg, s, threshold, now) && at >= threshold
    ensures TestOne(alg, s, at) == TestOne(alg, DefaultState(alg), at)
  {
    match alg
    case GcraAlg(g) =>
      GcraAlgorithm.StaleStateActsFresh(g, s.tat, now, 1, at);
      GcraOverrideAgreesWithDefault(alg, s, at);
      GcraOverrideAgreesWithDefault(alg, DefaultState(alg), at);
    case LeakyAlg(lb) =>
      if s.bucket.lastUpdate.Some? {
        LeakyBucketAlgorithm.StaleStateActsFresh(lb, s.bucket, now, 1, at);
      } else {
        assert s.bucket == LeakyBucketAlgorithm.DefaultBucketState;
      }
  }

  /**
   * The same for a batch, except under GCRA: there a stale TAT charges a
   * batch of two or more cells differently from a fresh one.
   */
  lemma ExpiredStateActsFreshForBatch(alg: Algorithm, s: AlgState, threshold: Instant, now: Instant, n: U32, at: Instant)
    requires Matches(alg, s) && !alg.GcraAlg?
    requires Expireable(alg, s, threshold, now) && at >= threshold
    ensures TestN(alg, s, n, at) == TestN(alg, DefaultState(alg), n, at)
  {
    if s.bucket.lastUpdate.Some? {
      LeakyBucketAlgorithm.StaleStateActsFresh(alg.bucket, s.bucket, now, n, at);
    } else {
      assert s.bucket == LeakyBucketAlgorithm.DefaultBucketState;
    }
  }

  class KeyedRateLimiter<K(==, !new)> {
    const algorithm: Algorithm
    var states: map<K, AlgState>

    /** Every stored state belongs to the algorithm, which was built by `construct`. */
    predicate Valid()
      reads this
    {
      Consistent(algorithm) && forall k :: k in states ==> Matches(algorithm, states[k])
    }

    /** The state a check on `key` starts from: the stored one, or a fresh one. */
    function StateOf(key: K): (s: AlgState)
      reads this
      requires Valid()
      ensures Matches(algorithm, s)
      ensures key in states ==> s == states[key]
      ensures key !in states ==> s == DefaultState(algorithm)
    {
      if key in states then states[key] else DefaultState(algorithm)
    }

    /** `new`: cells of weight 1, so construction cannot fail; no keys yet. */
    constructor New(kind: AlgorithmKind, capacity: NonZeroU32, perTimeUnit: Duration)
      ensures Construct(kind, capacity, 1, perTimeUnit).Ok?
      ensures algorithm == Construct(kind, capacity, 1, perTimeUnit).value
      ensures states == map[]
      ensures Valid()
    {
      algorithm := Construct(kind, capacity, 1, perTimeUnit).value;
      states := map[];
    }

    /** `per_second`: `new` with a time unit of one second. */
    constructor PerSecond(kind: AlgorithmKind, capacity: NonZeroU32)
      ensures algorithm == Construct(kind, capacity, 1, NANOS_PER_SECOND).value
      ensures states == map[]
      ensures Valid()
    {
      algorithm := Construct(kind, capacity, 1, NANOS_PER_SECOND).value;
      states := map[];
    }

    /** The limiter `Builder::build` assembles around an algorithm it constructed. */
    constructor WithAlgorithm(alg: Algorithm)
      requires Consistent(alg)
      ensures algorithm == alg && states == map[]
      ensures Valid()
    {
      algorithm := alg;
      states := map[];
    }

    /**
     * `check_and_update_key`: runs `update` on the key's state through a
     * wrapper. A key seen for the first time gets a fresh state, which is
     * stored whatever the decision; a known key keeps its state unless
     * `update` replaces it. No other key is touched.
     */
    method CheckAndUpdateKey<E>(key: K, update: AlgState --> (Result<(), E>, Option<AlgState>)) returns (r: Result<(), E>)
      requires Valid()
      requires update.requires(StateOf(key))
      requires update(StateOf(key)).1.Some? ==> Matches(algorithm, update(StateOf(key)).1.value)
      modifies this
      ensures Valid()
      ensures r == update(old(StateOf(key))).0
      ensures states == old(states)[key := Replaced(old(StateOf(key)), update(old(StateOf(key))).1)]
    {
      var cell: ThreadsafeWrapper<AlgState>;
      if key in states {
        cell := new ThreadsafeWrapper(states[key]);
      } else {
        cell := new ThreadsafeWrapper(DefaultState(algorithm));
      }
      r := cell.MeasureAndReplace(update);
      states := states[key := cell.data];
    }

    /** `check_at`: the algorithm's single-cell decision on the key's state. */
    method CheckAt(key: K, at: Instant) returns (r: Result<(), NonConformance>)
      requires Valid()
      modifies this
      ensures Valid()
      ensures r == TestOne(algorithm, old(StateOf(key)), at).0
      ensures states == old(states)[key := Replaced(old(StateOf(key)), TestOne(algorithm, old(StateOf(key)), at).1)]
    {
      var alg := algorithm;
      r := CheckAndUpdateKey(key, s requires Matches(alg, s) && Consistent(alg) => TestOne(alg, s, at));
    }

    /** `check_n_at`: the algorithm's batch decision on the key's state. */
    method CheckNAt(key: K, n: U32, at: Instant) returns (r: Result<(), NegativeMultiDecision<NonConformance>>)
      requires Valid()
      modifies this
      ensures Valid()
      ensures r == TestN(algorithm, old(StateOf(key)), n, at).0
      ensures states == old(states)[key := Replaced(old(StateOf(key)), TestN(algorithm, old(StateOf(key)), n, at).1)]
    {
      var alg := algorithm;
      r := CheckAndUpdateKey(key, s requires Matches(alg, s) => TestN(alg, s, n, at));
    }

    /** The keys a cleanup with this threshold removes. */
    function ExpireableKeys(threshold: Instant, now: Instant): (ks: set<K>)
      reads this
      requires Valid()
      ensures forall k :: k in ks <==> k in states && Expireable(algorithm, states[k], threshold, now)
    {
      set k | k in states && Expireable(algorithm, states[k], threshold, now)
    }

    /** The first pass of `cleanup_at`: collects every expireable key once, in no particular order. */
    method CollectExpireable(threshold: Instant, now: Instant) returns (expireable: seq<K>)
      requires Valid()
      ensures forall k :: k in expireable <==> k in ExpireableKeys(threshold, now)
      ensures forall i, j :: 0 <= i < j < |expireable| ==> expireable[i] != expireable[j]
    {
      expireable := [];
      var unvisited := states.Keys;
      while unvisited != {}
        invariant unvisited <= states.Keys
        invariant forall k :: k in expireable <==> k in ExpireableKeys(threshold, now) && k !in unvisited
        invariant forall i, j :: 0 <= i < j < |expireable| ==> expireable[i] != expireable[j]
        decreases |unvisited|
      {
        var k :| k in unvisited;
        if Expireable(algorithm, states[k], threshold, now) {
          expireable := expireable + [k];
        }
        unvisited := unvisited - {k};
      }
    }

    /**
     * `cleanup_at`: removes and returns exactly the keys whose last relevant
     * instant lies before `at - minAge` (saturating). A missing `minAge` is
     * zero, a missing `at` is the clock reading `now`. The other keys keep
     * their states.
     */
    method CleanupAt(minAge: Option<Duration>, at: Option<Instant>, now: Instant) returns (expired: seq<K>)
      requires Valid()
      modifies this
      ensures Valid()
      ensures forall k :: k in expired <==>
        k in old(states) && Expireable(algorithm, old(states)[k], SaturatingSub(at.GetOr(now), minAge.GetOr(0)), now)
      ensures forall i, j :: 0 <= i < j < |expired| ==> expired[i] != expired[j]
      ensures forall k :: k in states <==> k in old(states) && k !in expired
      ensures forall k :: k in states ==> states[k] == old(states)[k]
    {
      var threshold := SaturatingSub(at.GetOr(now), minAge.GetOr(0));
      expired := CollectExpireable(threshold, now);
      var i := 0;
      while i < |expired|
        invariant 0 <= i <= |expired|
        invariant forall k :: k in states <==> k in old(states) && k !in expired[..i]
        invariant forall k :: k in states ==> states[k] == old(states)[k]
      {
        states := states - {expired[i]};
        i := i + 1;
      }
    }
  }

  // ---------------------------------------------------------------------
  // Builder
  // ---------------------------------------------------------------------

  /** The keyed builder's settings; the hasher and clock choices are not modelled. */
  datatype Builder = Builder(
    kind: AlgorithmKind,
    capacity: NonZeroU32,
    cellWeight: NonZeroU32,
    perTimeUnit: Duration,
    mapCapacity: Option<nat>)

  /** `Builder::default`: one cell of weight 1 per second, no preset map size; it always builds. */
  function DefaultBuilder(kind: AlgorithmKind): (b: Builder)
    ensures b.kind == kind && b.mapCapacity.None?
    ensures b.capacity == 1 && b.cellWeight == 1
    ensures Construct(kind, b.capacity, b.cellWeight, b.perTimeUnit).Ok?
    ensures b.perTimeUnit == NANOS_PER_SECOND
  {
    Builder(kind, 1, 1, NANOS_PER_SECOND, None)
  }

  /** `KeyedRateLimiter::build_with_capacity`: the defaults, with the given capacity. */
  function BuildWithCapacity(kind: AlgorithmKind, capacity: NonZeroU32): (b: Builder)
    ensures b == DefaultBuilder(kind).(capacity := capacity)
    ensures Construct(kind, b.capacity, b.cellWeight, b.perTimeUnit).Ok?
  {
    DefaultBuilder(kind).(capacity := capacity)
  }

  /**
   * `with_cell_weight`: refuses when the weight set so far exceeds the
   * capacity, reporting the new weight; otherwise only the weight changes.
   */
  function WithCellWeight(b: Builder, cellWeight: NonZeroU32): (r: Result<Builder, InconsistentCapacity>)
    ensures r.Err? <==> b.cellWeight > b.capacity
    ensures r.Err? ==> r.error == InconsistentCapacity(b.capacity, cellWeight)
    ensures r.Ok? ==> r.value.cellWeight == cellWeight
    ensures r.Ok? ==> r.value.(cellWeight := b.cellWeight) == b
  {
    if b.cellWeight > b.capacity then
      Err(NewInconsistentCapacity(b.capacity, cellWeight))
    else
      Ok(b.(cellWeight := cellWeight))
  }

  /** `with_map_capacity`: only the map size hint changes. */
  function WithMapCapacity(b: Builder, mapCapacity: nat): (r: Builder)
    ensures r.mapCapacity == Some(mapCapacity)
    ensures r.(mapCapacity := b.mapCapacity) == b
  {
    b.(mapCapacity := Some(mapCapacity))
  }

  /**
   * `with_cell_weight` accepts a weight above the capacity when the weight
   * set before was fine; `build` then refuses it.
   */
  lemma OversizedWeightCaughtAtBuild(kind: AlgorithmKind, capacity: NonZeroU32, w: NonZeroU32)
    requires kind != AllowerKind && w > capacity
    ensures var r := WithCellWeight(BuildWithCapacity(kind, capacity), w);
      && r.Ok?
      && Construct(kind, r.value.capacity, r.value.cellWeight, r.value.perTimeUnit) == Err(InconsistentCapacity(capacity, w))
  {
  }

  /** `build`: an empty keyed limiter around the constructed algorithm, or the construction's error. */
  method Build<K(==, !new)>(b: Builder) returns (r: Result<KeyedRateLimiter<K>, InconsistentCapacity>)
    ensures r.Err? <==> Construct(b.kind, b.capacity, b.cellWeight, b.perTimeUnit).Err?
    ensures r.Err? ==> r.error == InconsistentCapacity(b.capacity, b.cellWeight)
    ensures r.Ok? ==> fresh(r.value) && r.value.Valid() && r.value.states == map[]
    ensures r.Ok? ==> r.value.algorithm == Construct(b.kind, b.capacity, b.cellWeight, b.perTimeUnit).value
  {
    var c := Construct(b.kind, b.capacity, b.cellWeight, b.perTimeUnit);
    if c.Err? {
      return Err(c.error);
    }
    var l := new KeyedRateLimiter<K>.WithAlgorithm(c.value);
    r := Ok(l);
  }
}
