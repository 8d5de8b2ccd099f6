/**
 * The naive example algorithm that admits everything, and the
 * pseudo-instant it runs on.
 */
module ExampleAlgorithms {
  import opened Common
  import opened Errors

  /** The algorithm's parameters: there are none. */
  datatype Allower = Allower

  /** A pseudo-instant that never changes. */
  datatype Always = Always

  /** The only bucket state is the unit value. */
  datatype UnitState = UnitState

  /**
   * The non-conformance of the `Allower`, which is never produced. The
   * library's type has no values at all; a datatype needs a constructor,
   * and `CantHappen` is one that no operation here builds.
   */
  datatype Impossible = CantHappen

  /** Building an `Allower` never fails, whatever the parameters. */
  function Construct(capacity: NonZeroU32, cellWeight: NonZeroU32, perTimeUnit: Duration): (r: Result<Allower, InconsistentCapacity>)
    ensures r.Ok?
  {
    Ok(Allower)
  }

  /** Every batch, of any size, at any instant, is admitted. */
  function TestN(a: Allower, s: UnitState, n: U32, t0: Always): (r: (Result<(), NegativeMultiDecision<Impossible>>, Option<UnitState>))
    ensures r.0.Ok?
  {
    (Ok(()), None)
  }

  /** `Always::duration_since` */
  function DurationSince(self: Always, earlier: Always): (d: Duration)
    ensures d == 0
  {
    0
  }
}
