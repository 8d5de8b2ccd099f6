/**
 * The single-cell state wrapper through which every algorithm reads and
 * updates a bucket. The mutex only makes each call one atomic step, so the
 * wrapper is modelled as a sequential object with one field.
 */
module ThreadSafety {
  import opened Common

  /** What a cell holds after a decision that proposed `update`. */
  function Replaced<T>(current: T, update: Option<T>): (r: T)
    ensures update.Some? ==> r == update.value
    ensures update.None? ==> r == current
  {
    update.GetOr(current)
  }

  class ThreadsafeWrapper<T(==)> {
    var data: T

    /** `Default`: the cell starts out holding the wrapped type's default, passed in as `default`. */
    constructor (default: T)
      ensures data == default
    {
      data := default;
    }

    /**
     * Hands the current value to the decision function `f`, stores the new
     * value `f` proposes (if any), and returns `f`'s decision.
     */
    method MeasureAndReplace<E>(f: T --> (Result<(), E>, Option<T>)) returns (decision: Result<(), E>)
      requires f.requires(data)
      modifies this
      ensures decision == f(old(data)).0
      ensures data == Replaced(old(data), f(old(data)).1)
    {
      var (d, newData) := f(data);
      if newData.Some? {
        data := newData.value;
      }
      decision := d;
    }

    /** A copy of the current value; taking it changes nothing. */
    method Snapshot() returns (r: T)
      ensures r == data
    {
      r := data;
    }

    /** Two wrappers are equal when they hold equal values; the identity shortcut agrees with that. */
    predicate Equals(other: ThreadsafeWrapper<T>): (eq: bool)
      reads this, other
      ensures eq <==> data == other.data
    {
      this == other || data == other.data
    }
  }
}
