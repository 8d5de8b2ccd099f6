/**
 * The direct (un-keyed) rate limiter: one algorithm and one bucket state,
 * and the builder that assembles them.
 */
module Direct {
  import opened Common
  import opened Errors
  import opened ThreadSafety
  import opened Algorithms
  import ExampleAlgorithms

  class DirectRateLimiter {
    const algorithm: Algorithm
    const state: ThreadsafeWrapper<AlgState>

    /** The state belongs to the algorithm, and the algorithm was built by `construct`. */
    predicate Valid()
      reads this, state
    {
      Matches(algorithm, state.data) && Consistent(algorithm)
    }

    /** `new`: cells of weight 1; construction cannot fail then, so the unwrap is safe. */
    constructor New(kind: AlgorithmKind, capacity: NonZeroU32, perTimeUnit: Duration)
      ensures Construct(kind, capacity, 1, perTimeUnit).Ok?
      ensures algorithm == Construct(kind, capacity, 1, perTimeUnit).value
      ensures fresh(state) && state.data == DefaultState(algorithm)
      ensures Valid()
    {
      var c := Construct(kind, capacity, 1, perTimeUnit);
      algorithm := c.value;
      state := new ThreadsafeWrapper(DefaultState(c.value));
    }

    /** `per_second`: `new` with a time unit of one second. */
    constructor PerSecond(kind: AlgorithmKind, capacity: NonZeroU32)
      ensures algorithm == Construct(kind, capacity, 1, NANOS_PER_SECOND).value
      ensures fresh(state) && state.data == DefaultState(algorithm)
      ensures Valid()
    {
      var c := Construct(kind, capacity, 1, NANOS_PER_SECOND);
      algorithm := c.value;
      state := new ThreadsafeWrapper(DefaultState(c.value));
    }

    /** The limiter `Builder::build` assembles around an algorithm it constructed. */
    constructor WithAlgorithm(alg: Algorithm)
      requires Consistent(alg)
      ensures algorithm == alg
      ensures fresh(state) && state.data == DefaultState(alg)
      ensures Valid()
    {
      algorithm := alg;
      state := new ThreadsafeWrapper(DefaultState(alg));
    }

    /** `check_at`: the algorithm's single-cell decision on this limiter's state. */
    method CheckAt(at: Instant) returns (r: Result<(), NonConformance>)
      requires Valid()
      modifies state
      ensures Valid()
      ensures r == TestOne(algorithm, old(state.data), at).0
      ensures state.data == Replaced(old(state.data), TestOne(algorithm, old(state.data), at).1)
    {
      r := TestAndUpdate(algorithm, state, at);
    }

    /** `check_n_at`: the algorithm's batch decision on this limiter's state. */
    method CheckNAt(n: U32, at: Instant) returns (r: Result<(), NegativeMultiDecision<NonConformance>>)
      requires Valid()
      modifies state
      ensures Valid()
      ensures r == TestN(algorithm, old(state.data), n, at).0
      ensures state.data == Replaced(old(state.data), TestN(algorithm, old(state.data), n, at).1)
      ensures r.Err? ==> state.data == old(state.data)
    {
      r := TestNAndUpdate(algorithm, state, n, at);
    }
  }

  /** `Allower::ratelimiter`: a direct limiter that admits every cell, with made-up parameters. */
  method AllowerRateLimiter() returns (l: DirectRateLimiter)
    ensures fresh(l) && fresh(l.state) && l.Valid()
    ensures l.algorithm == AllowerAlg(ExampleAlgorithms.Allower)
  {
    l := new DirectRateLimiter.PerSecond(AllowerKind, 1);
  }

  /** Assembles a direct limiter step by step. */
  class Builder {
    const kind: AlgorithmKind
    var capacity: NonZeroU32
    var cellWeight: NonZeroU32
    var timeUnit: Duration

    /** `DirectRateLimiter::build_with_capacity`: weight 1 per cell, a one-second time unit. */
    constructor BuildWithCapacity(kind: AlgorithmKind, capacity: NonZeroU32)
      ensures this.kind == kind && this.capacity == capacity
      ensures cellWeight == 1 && timeUnit == NANOS_PER_SECOND
    {
      this.kind := kind;
      this.capacity := capacity;
      cellWeight := 1;
      timeUnit := NANOS_PER_SECOND;
    }

    /**
     * `cell_weight`: refuses when the weight set so far exceeds the capacity
     * (the new weight is checked only by `build`); otherwise stores `weight`.
     */
    method CellWeight(weight: NonZeroU32) returns (r: Result<(), InconsistentCapacity>)
      modifies this
      ensures r.Err? <==> old(cellWeight) > capacity
      ensures r.Err? ==> r.error == InconsistentCapacity(capacity, old(cellWeight)) && cellWeight == old(cellWeight)
      ensures r.Ok? ==> cellWeight == weight
      ensures capacity == old(capacity) && timeUnit == old(timeUnit)
    {
      if cellWeight > capacity {
        return Err(InconsistentCapacity(capacity, cellWeight));
      }
      cellWeight := weight;
      r := Ok(());
    }

    /** `per`: sets the time unit the bucket drains in, and nothing else. */
    method Per(tu: Duration)
      modifies this
      ensures timeUnit == tu
      ensures capacity == old(capacity) && cellWeight == old(cellWeight)
    {
      timeUnit := tu;
    }

    /** `build`: a fresh limiter around the constructed algorithm, or the construction's error. */
    method Build() returns (r: Result<DirectRateLimiter, InconsistentCapacity>)
      ensures r.Err? <==> Construct(kind, capacity, cellWeight, timeUnit).Err?
      ensures r.Err? ==> r.error == InconsistentCapacity(capacity, cellWeight)
      ensures r.Ok? ==> fresh(r.value) && fresh(r.value.state) && r.value.Valid()
      ensures r.Ok? ==> r.value.algorithm == Construct(kind, capacity, cellWeight, timeUnit).value
      ensures r.Ok? ==> r.value.state.data == DefaultState(r.value.algorithm)
    {
      var c := Construct(kind, capacity, cellWeight, timeUnit);
      if c.Err? {
        return Err(c.error);
      }
      var l := new DirectRateLimiter.WithAlgorithm(c.value);
      r := Ok(l);
    }
  }
}
