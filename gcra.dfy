/**
 * The Generic Cell Rate Algorithm in its virtual-scheduling form (ITU-T
 * Recommendation I.371): a bucket remembers one theoretical arrival time
 * (TAT); a cell arriving at `t0` conforms unless `t0 < TAT - tau`.
 */
module GcraAlgorithm {
  import opened Common
  import opened Errors
  import opened ThreadSafety

  /** The theoretical arrival time; `None` until a cell was first admitted. */
  type Tat = Option<Instant>

  /** `Tat::default()`. */
  const DefaultTat: Tat := None

  /** The negative decision: no cell conforms before `at`. */
  datatype NotUntil = NotUntil(at: Instant)

  function EarliestPossible(nc: NotUntil): Instant { nc.at }

  /** `t` is the time one cell costs, `tau` the window that bounds a burst. */
  datatype Gcra = Gcra(t: Duration, tau: Duration)

  lemma ShareOfUnitFits(per: nat, capacity: nat, weight: nat)
    requires 1 <= weight <= capacity
    ensures (per / capacity) * weight <= per
  {
    var q := per / capacity;
    MulLe(q, weight, capacity);
    assert q * capacity + per % capacity == per;
  }

  /** Derives `t` from the rate (truncating division) and takes the time unit as `tau`. */
  function Construct(capacity: NonZeroU32, cellWeight: NonZeroU32, perTimeUnit: Duration): (r: Result<Gcra, InconsistentCapacity>)
    ensures r.Err? <==> capacity < cellWeight
    ensures r.Err? ==> r.error == InconsistentCapacity(capacity, cellWeight)
    ensures r.Ok? ==> r.value.t == (perTimeUnit / capacity) * cellWeight && r.value.tau == perTimeUnit
    ensures r.Ok? ==> r.value.t <= r.value.tau
  {
    if capacity < cellWeight then
      Err(NewInconsistentCapacity(capacity, cellWeight))
    else
      var t := (perTimeUnit / capacity) * cellWeight;
      ShareOfUnitFits(perTimeUnit, capacity, cellWeight);
      Ok(Gcra(t, perTimeUnit))
  }

  /**
   * The decision closure of `test_and_update`: the decision for one cell at
   * `t0`, and the TAT to store (`None`: leave the bucket as it is).
   */
  function DecideOne(g: Gcra, tat: Tat, t0: Instant): (r: (Result<(), NotUntil>, Option<Tat>))
    ensures r.0.Ok? <==> tat.GetOr(t0) - g.tau <= t0
    ensures r.0.Ok? ==> r.1 == Some(Some(Max(tat.GetOr(t0), t0) + g.t))
    ensures r.0.Err? ==> r.1 == None && r.0.error == NotUntil(tat.GetOr(t0))
    ensures r.0.Err? ==> t0 < EarliestPossible(r.0.error)
    ensures tat.None? ==> r.0.Ok?
  {
    var cur := tat.GetOr(t0);
    if t0 < cur - g.tau then
      (Err(NotUntil(cur)), None)
    else
      (Ok(()), Some(Some(Max(cur, t0) + g.t)))
  }

  /**
   * The decision closure of `test_n_and_update`: a batch of `n` cells is
   * measured from an effective TAT that already counts `n - 1` of them.
   */
  function DecideN(g: Gcra, tat: Tat, n: U32, t0: Instant): (r: (Result<(), NegativeMultiDecision<NotUntil>>, Option<Tat>))
    ensures r.1.Some? <==> r.0.Ok?
    ensures r.0.Err? ==> r.0.error.n == n
    ensures (r.0.Err? && r.0.error.InsufficientCapacity?) <==> n >= 2 && g.t * n > g.tau
    ensures n == 0 ==> r == (Ok(()), Some(Some(t0)))
    ensures r.0.Err? && r.0.error.BatchNonConforming? ==> t0 < EarliestPossible(r.0.error.nonConformance)
    ensures n >= 1 && r.0.Ok? ==> r.1.value.Some? && r.1.value.value >= t0 + g.t * n
    ensures tat.Some? && n >= 1 && r.0.Ok? ==> r.1.value.Some? && r.1.value.value >= tat.value + g.t * n
    ensures 1 <= n && !(n >= 2 && g.t * n > g.tau) ==>
      var eff := tat.GetOr(t0) + g.t * (n - 1);
      && (r.0.Ok? <==> eff - g.tau <= t0)
      && (r.0.Ok? ==> r.1 == Some(Some(Max(eff, t0) + g.t * n)))
      && (r.0.Err? ==> r.0.error == BatchNonConforming(n, NotUntil(eff)))
  {
    var cur := tat.GetOr(t0);
    if n >= 2 && g.t * (n - 1) + g.t > g.tau then
      (Err(InsufficientCapacity(n)), None)
    else
      var eff := if n == 0 then t0 else if n == 1 then cur else cur + g.t * (n - 1);
      var additional := if n == 0 then 0 else if n == 1 then g.t else g.t * n;
      if t0 < eff - g.tau then
        (Err(BatchNonConforming(n, NotUntil(eff))), None)
      else
        (Ok(()), Some(Some(Max(eff, t0) + additional)))
  }

  /** `test_and_update`: one cell, measured and stored atomically through the bucket's wrapper. */
  method TestAndUpdate(g: Gcra, state: ThreadsafeWrapper<Tat>, t0: Instant) returns (r: Result<(), NotUntil>)
    modifies state
    ensures r == DecideOne(g, old(state.data), t0).0
    ensures state.data == Replaced(old(state.data), DecideOne(g, old(state.data), t0).1)
  {
    r := state.MeasureAndReplace(tat => DecideOne(g, tat, t0));
  }

  /** `test_n_and_update`: the batch is admitted whole or the bucket is left alone. */
  method TestNAndUpdate(g: Gcra, state: ThreadsafeWrapper<Tat>, n: U32, t0: Instant)
    returns (r: Result<(), NegativeMultiDecision<NotUntil>>)
    modifies state
    ensures r == DecideN(g, old(state.data), n, t0).0
    ensures state.data == Replaced(old(state.data), DecideN(g, old(state.data), n, t0).1)
    ensures r.Err? ==> state.data == old(state.data)
  {
    r := state.MeasureAndReplace(tat => DecideN(g, tat, n, t0));
  }

  /**
   * `last_touched`: the TAT (or `now` when none) plus `tau`. From that
   * instant on, the bucket remembers nothing that matters to a single cell.
   */
  function LastTouched(g: Gcra, tat: Tat, now: Instant): (lt: Instant)
    ensures lt >= tat.GetOr(now)
    ensures DecideOne(g, tat, lt) == DecideOne(g, DefaultTat, lt)
  {
    tat.GetOr(now) + g.tau
  }

  // ---------------------------------------------------------------------
  // Properties
  // ---------------------------------------------------------------------

  /** A single cell retried at the instant a denial names is admitted. */
  lemma RetryAtEarliestPossible(g: Gcra, tat: Tat, t0: Instant)
    requires DecideOne(g, tat, t0).0.Err?
    ensures DecideOne(g, tat, EarliestPossible(DecideOne(g, tat, t0).0.error)).0.Ok?
  {
  }

  /** The same holds for a batch that was denied as non-conforming. */
  lemma BatchRetryAtEarliestPossible(g: Gcra, tat: Tat, n: U32, t0: Instant)
    requires DecideN(g, tat, n, t0).0.Err? && DecideN(g, tat, n, t0).0.error.BatchNonConforming?
    ensures DecideN(g, tat, n, EarliestPossible(DecideN(g, tat, n, t0).0.error.nonConformance)).0.Ok?
  {
    assert g.t * (n - 1) + g.t == g.t * n;
  }

  /**
   * The instant a denial names is not the earliest conforming one: with a
   * positive window, a cell already conforms `tau` before it.
   */
  lemma EarliestPossibleIsLate(g: Gcra, x: Instant, t0: Instant)
    requires g.tau > 0 && DecideOne(g, Some(x), t0).0.Err?
    ensures EarliestPossible(DecideOne(g, Some(x), t0).0.error) == x
    ensures DecideOne(g, Some(x), x - g.tau).0.Ok?
  {
  }

  /**
   * Once `last_touched` has passed, a single cell (or an empty batch) is
   * decided exactly as on a fresh bucket.
   */
  lemma StaleStateActsFresh(g: Gcra, tat: Tat, now: Instant, n: U32, t0: Instant)
    requires n <= 1 && t0 >= LastTouched(g, tat, now)
    ensures DecideN(g, tat, n, t0) == DecideN(g, DefaultTat, n, t0)
  {
  }

  /**
   * For batches of two or more it does not: a fresh bucket charges the
   * batch from an effective TAT `t0 + t * (n - 1)`, a stale one from `t0`.
   */
  lemma StaleBatchDiffersFromFresh()
    ensures var g := Gcra(500, 1000);
      && 2000 >= LastTouched(g, Some(0), 0)
      && DecideN(g, Some(0), 2, 2000).1 == Some(Some(3000))
      && DecideN(g, DefaultTat, 2, 2000).1 == Some(Some(3500))
  {
  }

  // ---------------------------------------------------------------------
  // Bursts at one instant
  // ---------------------------------------------------------------------

  /**
   * Checks `k` single cells one after another, all at `t0`, each through
   * `test_and_update`; yields how many were admitted and the final TAT.
   */
  function SameInstantBurst(g: Gcra, tat: Tat, t0: Instant, k: nat): (r: (nat, Tat))
    ensures r.0 <= k
    decreases k
  {
    if k == 0 then (0, tat)
    else
      var step := DecideOne(g, tat, t0);
      var rest := SameInstantBurst(g, Replaced(tat, step.1), t0, k - 1);
      ((if step.0.Ok? then 1 else 0) + rest.0, rest.1)
  }

  /** One cell admitted from room `d` leaves room `d - t` and one cell fewer to count. */
  lemma CountStep(d: int, t: int, k: nat)
    requires t > 0 && d >= 0 && k > 0
    ensures 1 + (if d - t < 0 then 0 else Min(k - 1, (d - t) / t + 1)) == Min(k, d / t + 1)
  {
    if d >= t {
      DivStep(d, t);
    } else {
      DivUnique(d, t, 0, d);
    }
  }

  /** The TAT after one more cell of cost `t`. */
  lemma AddOneCell(a: int, c: int, t: int)
    ensures a + t + c * t == a + (1 + c) * t
  {
  }

  /** One cell at `t0` against a TAT `x` not before `t0`. */
  lemma StepAtScheduled(g: Gcra, x: Instant, t0: Instant)
    requires x >= t0
    ensures var r := DecideOne(g, Some(x), t0);
      && (r.0.Ok? <==> x - g.tau <= t0)
      && Replaced(Some(x), r.1) == if x - g.tau <= t0 then Some(x + g.t) else Some(x)
  {
  }

  /**
   * From a TAT `x` not before `t0`, cells at `t0` are admitted while the
   * TAT has not run more than `tau` ahead of `t0`; each one moves it by `t`.
   */
  lemma {:induction false} BurstFromScheduled(g: Gcra, x: Instant, t0: Instant, k: nat)
    requires g.t > 0 && x >= t0
    decreases k
    ensures var r := SameInstantBurst(g, Some(x), t0, k);
      && r.0 == (if x - g.tau > t0 then 0 else Min(k, (t0 + g.tau - x) / g.t + 1))
      && r.1 == Some(x + r.0 * g.t)
  {
    if k > 0 {
      StepAtScheduled(g, x, t0);
      if x - g.tau > t0 {
        BurstFromScheduled(g, x, t0, k - 1);
      } else {
        BurstFromScheduled(g, x + g.t, t0, k - 1);
        var rest := SameInstantBurst(g, Some(x + g.t), t0, k - 1);
        CountStep(t0 + g.tau - x, g.t, k);
        AddOneCell(x, rest.0, g.t);
      }
    }
  }

  /** A fresh bucket admits `tau / t + 1` cells at one instant, then denies. */
  lemma FreshBurst(g: Gcra, t0: Instant, k: nat)
    requires g.t > 0
    ensures var r := SameInstantBurst(g, DefaultTat, t0, k);
      && r.0 == Min(k, g.tau / g.t + 1)
      && (k >= 1 ==> r.1 == Some(t0 + r.0 * g.t))
  {
    if k > 0 {
      assert DecideOne(g, DefaultTat, t0).1 == Some(Some(t0 + g.t));
      BurstFromScheduled(g, t0 + g.t, t0, k - 1);
      var rest := SameInstantBurst(g, Some(t0 + g.t), t0, k - 1);
      CountStep(g.tau, g.t, k);
      AddOneCell(t0, rest.0, g.t);
    }
  }

  /** Whatever the bucket's history, no more than `tau / t + 1` cells get through at one instant. */
  lemma BurstBounded(g: Gcra, tat: Tat, t0: Instant, k: nat)
    requires g.t > 0
    ensures SameInstantBurst(g, tat, t0, k).0 <= g.tau / g.t + 1
  {
    FreshBurst(g, t0, k);
    if tat.Some? && tat.value >= t0 {
      BurstFromScheduled(g, tat.value, t0, k);
      DivMonotone(t0 + g.tau - tat.value, g.tau, g.t);
    } else if tat.Some? && k > 0 {
      assert SameInstantBurst(g, tat, t0, k) == SameInstantBurst(g, DefaultTat, t0, k);
    }
  }

  /**
   * 20 cells per second: `t` = 50 ms and `tau` = 1 s. A fresh bucket admits
   * 21 cells at one instant, denies the 22nd, and admits again 50 ms later.
   */
  lemma TwentyPerSecond(t0: Instant)
    ensures Construct(20, 1, NANOS_PER_SECOND) == Ok(Gcra(50_000_000, NANOS_PER_SECOND))
    ensures SameInstantBurst(Gcra(50_000_000, NANOS_PER_SECOND), DefaultTat, t0, 21) == (21, Some(t0 + 1_050_000_000))
    ensures SameInstantBurst(Gcra(50_000_000, NANOS_PER_SECOND), DefaultTat, t0, 22).0 == 21
    ensures DecideOne(Gcra(50_000_000, NANOS_PER_SECOND), Some(t0 + 1_050_000_000), t0).0.Err?
    ensures DecideOne(Gcra(50_000_000, NANOS_PER_SECOND), Some(t0 + 1_050_000_000), t0 + 50_000_000).0.Ok?
  {
    var g := Gcra(50_000_000, NANOS_PER_SECOND);
    assert g.tau / g.t == 20;
    FreshBurst(g, t0, 21);
    FreshBurst(g, t0, 22);
  }

  /**
   * Five cells per second: `t` = 200 ms. The first cell is free, so six
   * cells get through at one instant; the seventh is denied with
   * `NotUntil(t0 + 1.2 s)`, although a cell at `t0 + 200 ms` is admitted.
   */
  lemma FivePerSecond(t0: Instant)
    ensures Construct(5, 1, NANOS_PER_SECOND) == Ok(Gcra(200_000_000, NANOS_PER_SECOND))
    ensures SameInstantBurst(Gcra(200_000_000, NANOS_PER_SECOND), DefaultTat, t0, 7) == (6, Some(t0 + 1_200_000_000))
    ensures DecideOne(Gcra(200_000_000, NANOS_PER_SECOND), Some(t0 + 1_200_000_000), t0).0 == Err(NotUntil(t0 + 1_200_000_000))
    ensures DecideOne(Gcra(200_000_000, NANOS_PER_SECOND), Some(t0 + 1_200_000_000), t0 + 200_000_000).0.Ok?
  {
    var g := Gcra(200_000_000, NANOS_PER_SECOND);
    assert g.tau / g.t == 5;
    FreshBurst(g, t0, 7);
  }

  /**
   * With a cell cost of zero, which `construct` yields when the time unit in
   * nanoseconds is smaller than the capacity, every cell at the bucket's TAT
   * is admitted and leaves the TAT where it was.
   */
  lemma {:induction false} ZeroCostKeepsAdmitting(tau: Duration, t0: Instant, k: nat)
    ensures SameInstantBurst(Gcra(0, tau), Some(t0), t0, k) == (k, Some(t0))
  {
    if k > 0 {
      assert DecideOne(Gcra(0, tau), Some(t0), t0) == (Ok(()), Some(Some(t0)));
      ZeroCostKeepsAdmitting(tau, t0, k - 1);
    }
  }

  /**
   * The burst bound needs `t > 0`: two billion cells per second make `t`
   * zero, and a fresh bucket then admits every one of `k` cells at one instant.
   */
  lemma ZeroCostBurstUnbounded(t0: Instant, k: nat)
    ensures Construct(2_000_000_000, 1, NANOS_PER_SECOND) == Ok(Gcra(0, NANOS_PER_SECOND))
    ensures SameInstantBurst(Gcra(0, NANOS_PER_SECOND), DefaultTat, t0, k).0 == k
  {
    if k > 0 {
      assert DecideOne(Gcra(0, NANOS_PER_SECOND), DefaultTat, t0) == (Ok(()), Some(Some(t0)));
      ZeroCostKeepsAdmitting(NANOS_PER_SECOND, t0, k - 1);
    }
  }

  /**
   * Batches at two cells per second (`t` = 500 ms, `tau` = 1 s): a batch of
   * two on a fresh bucket is admitted and moves the TAT to `t0 + 1.5 s`;
   * the same batch 1 ms later is denied until `t0 + 2 s`; one second after
   * the first it is admitted; an empty batch is always admitted.
   */
  lemma TwoPerSecondBatches(t0: Instant)
    ensures Construct(2, 1, NANOS_PER_SECOND) == Ok(Gcra(500_000_000, NANOS_PER_SECOND))
    ensures var g := Gcra(500_000_000, NANOS_PER_SECOND);
      var first := DecideN(g, DefaultTat, 2, t0);
      && first == (Ok(()), Some(Some(t0 + 1_500_000_000)))
      && DecideN(g, first.1.value, 2, t0 + 1_000_000) == (Err(BatchNonConforming(2, NotUntil(t0 + 2_000_000_000))), None)
      && DecideN(g, first.1.value, 2, t0 + 1_000_000_000) == (Ok(()), Some(Some(t0 + 3_000_000_000)))
      && DecideN(g, first.1.value, 0, t0 + 1_000_000_000).0.Ok?
  {
  }
}
