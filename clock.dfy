/**
 * Time sources. Only the deterministic fake clock is modelled; a clock that
 * reads the operating system becomes an explicit instant argument elsewhere.
 */
module Clock {
  import opened Common

  /** `Reference::duration_since` for `Duration`-valued instants: plain subtraction. */
  function DurationSince(self: Duration, earlier: Duration): (d: Duration)
    requires earlier <= self  // `Duration - Duration` panics on underflow
    ensures earlier + d == self
  {
    self - earlier
  }

  /** A mock clock that reports whatever "now" it has been advanced to. */
  class FakeRelativeClock {
    var now: Duration

    /** The derived `Default`: the clock starts at zero. */
    constructor ()
      ensures now == 0
    {
      now := 0;
    }

    method Advance(amount: Duration)
      modifies this
      ensures now == old(now) + amount
    {
      now := now + amount;
    }

    /** Reading the clock does not move it. */
    method Now() returns (r: Duration)
      ensures r == now
    {
      r := now;
    }
  }
}
