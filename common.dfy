/**
 * Shared vocabulary of the rate limiter model: time, the integer widths the
 * library uses, and the Option/Result wrappers that stand in for Rust's.
 */
module Common {

  /** A point in time, in nanoseconds relative to some origin. */
  type Instant = int

  /** A span of time in nanoseconds (`std::time::Duration`, never negative). */
  type Duration = nat

  const NANOS_PER_SECOND: Duration := 1_000_000_000

  /** Rust's `u32`. */
  type U32 = x: int | 0 <= x < 0x1_0000_0000

  /** Rust's `NonZeroU32`. */
  type NonZeroU32 = x: int | 1 <= x < 0x1_0000_0000 witness 1

  datatype Option<+T> = None | Some(value: T) {
    /** `Option::unwrap_or` */
    function GetOr(default: T): T {
      match this
      case Some(v) => v
      case None => default
    }
  }

  datatype Result<+T, +E> = Ok(value: T) | Err(error: E)

  function Max(a: int, b: int): int { if a < b then b else a }

  function Min(a: int, b: int): int { if a < b then a else b }

  // Integer facts the time arithmetic relies on.

  lemma MulBelowDivisor(k: int, t: int)
    requires t > 0 && k * t < t
    ensures k < 1
  {
  }

  lemma MulLe(q: nat, a: nat, b: nat)
    requires a <= b
    ensures q * a <= q * b
  {
  }

  lemma DivUnique(d: int, t: int, q: int, m: int)
    requires t > 0 && 0 <= m < t && d == q * t + m
    ensures d / t == q
  {
    var q', m' := d / t, d % t;
    assert d == q' * t + m';
    assert (q - q') * t == m' - m;
    MulBelowDivisor(q - q', t);
    MulBelowDivisor(q' - q, t);
  }

  lemma DivStep(d: int, t: int)
    requires t > 0 && d >= t
    ensures (d - t) / t == d / t - 1
  {
    var q, m := d / t, d % t;
    assert d == q * t + m;
    assert d - t == (q - 1) * t + m;
    DivUnique(d - t, t, q - 1, m);
  }

  lemma DivMonotone(a: int, b: int, t: int)
    requires t > 0 && a <= b
    ensures a / t <= b / t
  {
    var qa, qb := a / t, b / t;
    assert a == qa * t + a % t && b == qb * t + b % t;
    assert (qa - qb) * t < t;
    MulBelowDivisor(qa - qb, t);
  }
}
