/**
 * The wrapper used when no synchronisation is needed: a `RefCell` whose
 * contents are replaced in place.
 */
module NoSync {
  import opened Common
  import opened ThreadSafety

  class SingleThreadedWrapper<T> {
    var data: T

    /** The derived `Default`: the cell holds the wrapped type's default, passed in as `default`. */
    constructor (default: T)
      ensures data == default
    {
      data := default;
    }

    method MeasureAndReplace<E>(f: T --> (Result<(), E>, Option<T>)) returns (decision: Result<(), E>)
      requires f.requires(data)
      modifies this
      ensures decision == f(old(data)).0
      ensures data == Replaced(old(data), f(old(data)).1)
    {
      var (d, newData) := f(data);
      if newData.Some? {
        data := newData.value;
      }
      decision := d;
    }

    method Snapshot() returns (r: T)
      ensures r == data
    {
      r := data;
    }
  }
}
