/**
 * What every rate-limiting algorithm offers the limiters: construction,
 * the batch decision, the single-cell decision derived from it, and the
 * waiting time a negative decision implies. The library is generic over
 * the algorithm; here the three algorithms form a closed sum, and each
 * operation dispatches to the algorithm's own module.
 */
module Algorithms {
  import opened Common
  import opened Errors
  import opened ThreadSafety
  import GcraAlgorithm
  import LeakyBucketAlgorithm
  import ExampleAlgorithms

  /** Which algorithm a limiter runs. */
  datatype AlgorithmKind = GcraKind | LeakyBucketKind | AllowerKind

  /** The algorithm limiters use unless told otherwise: the leaky bucket. */
  const DefaultAlgorithm: AlgorithmKind := LeakyBucketKind

  /** A constructed algorithm, with its parameters. */
  datatype Algorithm =
    | GcraAlg(gcra: GcraAlgorithm.Gcra)
    | LeakyAlg(bucket: LeakyBucketAlgorithm.LeakyBucket)
    | AllowerAlg(allower: ExampleAlgorithms.Allower)
  {
    function Kind(): AlgorithmKind
    {
      match this
      case GcraAlg(_) => GcraKind
      case LeakyAlg(_) => LeakyBucketKind
      case AllowerAlg(_) => AllowerKind
    }
  }

  /** The value one bucket's wrapper holds, for each algorithm. */
  datatype AlgState =
    | GcraState(tat: GcraAlgorithm.Tat)
    | LeakyState(bucket: LeakyBucketAlgorithm.BucketState)
    | UnitState

  /** A single-cell negative decision, for the algorithms that can deny. */
  datatype NonConformance =
    | NotUntilNc(notUntil: GcraAlgorithm.NotUntil)
    | TooEarlyNc(tooEarly: LeakyBucketAlgorithm.TooEarly)

  /**
   * A state that belongs to the algorithm and that the algorithm can reach:
   * a leaky bucket that was never updated holds no level.
   */
  predicate Matches(alg: Algorithm, s: AlgState)
  {
    match alg
    case GcraAlg(_) => s.GcraState?
    case LeakyAlg(_) => s.LeakyState? && (s.bucket.lastUpdate.None? ==> s.bucket.level == 0)
    case AllowerAlg(_) => s.UnitState?
  }

  /** Parameters as `construct` produces them: one cell never exceeds the whole capacity. */
  predicate Consistent(alg: Algorithm)
  {
    match alg
    case GcraAlg(g) => g.t <= g.tau
    case LeakyAlg(lb) => lb.tokenInterval <= lb.full
    case AllowerAlg(_) => true
  }

  /** The state a fresh bucket starts in: no TAT yet, or an empty, never-updated bucket. */
  function DefaultState(alg: Algorithm): (s: AlgState)
    ensures Matches(alg, s)
    ensures alg.GcraAlg? ==> s.tat.None?
    ensures alg.LeakyAlg? ==> s.bucket.level == 0 && s.bucket.lastUpdate.None?
  {
    match alg
    case GcraAlg(_) => GcraState(GcraAlgorithm.DefaultTat)
    case LeakyAlg(_) => LeakyState(LeakyBucketAlgorithm.DefaultBucketState)
    case AllowerAlg(_) => UnitState
  }

  /** `construct`, for the chosen algorithm. */
  function Construct(kind: AlgorithmKind, capacity: NonZeroU32, cellWeight: NonZeroU32, perTimeUnit: Duration)
    : (r: Result<Algorithm, InconsistentCapacity>)
    ensures r.Err? <==> kind != AllowerKind && capacity < cellWeight
    ensures r.Err? ==> r.error == InconsistentCapacity(capacity, cellWeight)
    ensures r.Ok? ==> r.value.Kind() == kind && Consistent(r.value)
  {
    match kind
    case GcraKind =>
      var c := GcraAlgorithm.Construct(capacity, cellWeight, perTimeUnit);
      if c.Err? then Err(c.error) else Ok(GcraAlg(c.value))
    case LeakyBucketKind =>
      var c := LeakyBucketAlgorithm.Construct(capacity, cellWeight, perTimeUnit);
      if c.Err? then Err(c.error) else Ok(LeakyAlg(c.value))
    case AllowerKind =>
      var c := ExampleAlgorithms.Construct(capacity, cellWeight, perTimeUnit);
      Ok(AllowerAlg(c.value))
  }

  /** `earliest_possible` of the algorithm's non-conformance. */
  function EarliestPossible(nc: NonConformance): Instant
  {
    match nc
    case NotUntilNc(e) => GcraAlgorithm.EarliestPossible(e)
    case TooEarlyNc(e) => LeakyBucketAlgorithm.EarliestPossible(e)
  }

  /**
   * `wait_time_from`: how long after `from` a cell may conform, never
   * negative.
   */
  function WaitTimeFrom(nc: NonConformance, from: Instant): (d: Duration)
    ensures from >= EarliestPossible(nc) ==> d == 0
    ensures from < EarliestPossible(nc) ==> from + d == EarliestPossible(nc)
  {
    var earliest := EarliestPossible(nc);
    earliest - Min(earliest, from)
  }

  /** Re-labels the algorithm's own negative decision as a `NonConformance`. */
  function Lift<E>(d: Result<(), NegativeMultiDecision<E>>, f: E -> NonConformance)
    : (r: Result<(), NegativeMultiDecision<NonConformance>>)
    ensures r.Ok? <==> d.Ok?
    ensures r.Err? ==> r.error.n == d.error.n && r.error.BatchNonConforming? == d.error.BatchNonConforming?
    ensures r.Err? && r.error.BatchNonConforming? ==> r.error.nonConformance == f(d.error.nonConformance)
  {
    match d
    case Ok(_) => Ok(())
    case Err(BatchNonConforming(n, nc)) => Err(BatchNonConforming(n, f(nc)))
    case Err(InsufficientCapacity(n)) => Err(InsufficientCapacity(n))
  }

  /**
   * `test_n_and_update` as a value: the decision on `n` cells at `at`, and
   * the state to store (`None`: leave the bucket as it is).
   */
  function TestN(alg: Algorithm, s: AlgState, n: U32, at: Instant)
    : (r: (Result<(), NegativeMultiDecision<NonConformance>>, Option<AlgState>))
    requires Matches(alg, s)
    ensures r.0.Err? ==> r.1.None?
    ensures r.0.Err? ==> r.0.error.n == n
    ensures r.1.Some? ==> Matches(alg, r.1.value)
  {
    match alg
    case GcraAlg(g) =>
      var d := GcraAlgorithm.DecideN(g, s.tat, n, at);
      (Lift(d.0, e => NotUntilNc(e)), if d.1.Some? then Some(GcraState(d.1.value)) else None)
    case LeakyAlg(lb) =>
      var d := LeakyBucketAlgorithm.TestN(lb, s.bucket, n, at);
      (Lift(d.0, e => TooEarlyNc(e)), if d.1.Some? then Some(LeakyState(d.1.value)) else None)
    case AllowerAlg(a) =>
      var d := ExampleAlgorithms.TestN(a, ExampleAlgorithms.UnitState, n, ExampleAlgorithms.Always);
      (Ok(()), if d.1.Some? then Some(UnitState) else None)
  }

  /**
   * The default `test_and_update`'s reading of a one-cell batch decision:
   * a batch non-conformance of one cell is the cell's non-conformance. Any
   * other negative outcome is declared a bug and so is excluded here.
   */
  function SingleFromBatch(d: Result<(), NegativeMultiDecision<NonConformance>>): (r: Result<(), NonConformance>)
    requires d.Ok? || (d.error.BatchNonConforming? && d.error.n == 1)
    ensures r.Ok? <==> d.Ok?
    ensures r.Err? ==> r.error == d.error.nonConformance
  {
    match d
    case Ok(_) => Ok(())
    case Err(e) => Err(e.nonConformance)
  }

  /** For parameters `construct` builds, a one-cell batch is never refused as too large. */
  lemma SingleCellNeverInsufficient(alg: Algorithm, s: AlgState, at: Instant)
    requires Matches(alg, s) && Consistent(alg)
    ensures var d := TestN(alg, s, 1, at).0;
      d.Ok? || (d.error.BatchNonConforming? && d.error.n == 1)
  {
    if alg.LeakyAlg? {
      assert alg.bucket.tokenInterval * 1 <= alg.bucket.full;
    }
  }

  /** The default `test_and_update`: a batch of one cell, read back as a single-cell decision. */
  function DefaultTestOne(alg: Algorithm, s: AlgState, at: Instant): (r: (Result<(), NonConformance>, Option<AlgState>))
    requires Matches(alg, s) && Consistent(alg)
    ensures r.0.Ok? <==> TestN(alg, s, 1, at).0.Ok?
    ensures r.1 == TestN(alg, s, 1, at).1
  {
    SingleCellNeverInsufficient(alg, s, at);
    var d := TestN(alg, s, 1, at);
    (SingleFromBatch(d.0), d.1)
  }

  /**
   * `test_and_update`: GCRA overrides it with its own one-cell decision,
   * the other algorithms keep the default.
   */
  function TestOne(alg: Algorithm, s: AlgState, at: Instant): (r: (Result<(), NonConformance>, Option<AlgState>))
    requires Matches(alg, s) && Consistent(alg)
    ensures r.0.Err? ==> r.1.None?
    ensures r.1.Some? ==> Matches(alg, r.1.value)
    ensures r.0.Err? ==> at < EarliestPossible(r.0.error)
  {
    match alg
    case GcraAlg(g) =>
      var d := GcraAlgorithm.DecideOne(g, s.tat, at);
      (if d.0.Ok? then Ok(()) else Err(NotUntilNc(d.0.error)), if d.1.Some? then Some(GcraState(d.1.value)) else None)
    case _ =>
      DefaultTestOne(alg, s, at)
  }

  /** GCRA's own `test_and_update` decides and stores exactly what the default would. */
  lemma GcraOverrideAgreesWithDefault(alg: Algorithm, s: AlgState, at: Instant)
    requires alg.GcraAlg? && Matches(alg, s) && Consistent(alg)
    ensures TestOne(alg, s, at) == DefaultTestOne(alg, s, at)
  {
    var g := alg.gcra;
    assert g.t * (1 - 1) + g.t == g.t;
  }

  /**
   * Waiting the time a single-cell denial names, with no other decision in
   * between, is enough: the cell is then admitted.
   */
  lemma RetryAfterWaitTime(alg: Algorithm, s: AlgState, at: Instant)
    requires Matches(alg, s) && Consistent(alg)
    requires TestOne(alg, s, at).0.Err?
    ensures TestOne(alg, s, at + WaitTimeFrom(TestOne(alg, s, at).0.error, at)).0.Ok?
  {
    var nc := TestOne(alg, s, at).0.error;
    var later := at + WaitTimeFrom(nc, at);
    assert later == EarliestPossible(nc);
    match alg
    case GcraAlg(g) =>
      GcraAlgorithm.RetryAtEarliestPossible(g, s.tat, at);
    case LeakyAlg(lb) =>
      assert s.bucket.lastUpdate.Some?;
      LeakyBucketAlgorithm.RetryAtEarliestPossible(lb, s.bucket, 1, at);
  }

  /** A fresh bucket admits its first cell, whatever the instant. */
  lemma FirstCellAdmitted(alg: Algorithm, at: Instant)
    requires Consistent(alg)
    ensures TestOne(alg, DefaultState(alg), at).0.Ok?
  {
    if alg.LeakyAlg? {
      assert alg.bucket.tokenInterval * 1 <= alg.bucket.full;
    }
  }

  /** The `Allower` admits every batch and every cell, and never changes its state. */
  lemma AllowerAdmitsEverything(alg: Algorithm, s: AlgState, n: U32, at: Instant)
    requires alg.AllowerAlg? && Matches(alg, s)
    ensures TestN(alg, s, n, at).0.Ok? && Replaced(s, TestN(alg, s, n, at).1) == s
    ensures TestOne(alg, s, at).0.Ok? && Replaced(s, TestOne(alg, s, at).1) == s
  {
  }

  /** `test_n_and_update` through the bucket's wrapper: the batch is admitted whole or not at all. */
  method TestNAndUpdate(alg: Algorithm, state: ThreadsafeWrapper<AlgState>, n: U32, at: Instant)
    returns (r: Result<(), NegativeMultiDecision<NonConformance>>)
    requires Matches(alg, state.data)
    modifies state
    ensures r == TestN(alg, old(state.data), n, at).0
    ensures state.data == Replaced(old(state.data), TestN(alg, old(state.data), n, at).1)
    ensures r.Err? ==> state.data == old(state.data)
    ensures Matches(alg, state.data)
  {
    r := state.MeasureAndReplace(s requires Matches(alg, s) => TestN(alg, s, n, at));
  }

  /** `test_and_update` through the bucket's wrapper. */
  method TestAndUpdate(alg: Algorithm, state: ThreadsafeWrapper<AlgState>, at: Instant)
    returns (r: Result<(), NonConformance>)
    requires Matches(alg, state.data) && Consistent(alg)
    modifies state
    ensures r == TestOne(alg, old(state.data), at).0
    ensures state.data == Replaced(old(state.data), TestOne(alg, old(state.data), at).1)
    ensures r.Err? ==> state.data == old(state.data)
    ensures Matches(alg, state.data)
  {
    if alg.GcraAlg? {
      r := state.MeasureAndReplace(s requires Matches(alg, s) && Consistent(alg) => TestOne(alg, s, at));
    } else {
      SingleCellNeverInsufficient(alg, state.data, at);
      var d := TestNAndUpdate(alg, state, 1, at);
      r := SingleFromBatch(d);
    }
  }
}
