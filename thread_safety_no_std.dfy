/**
 * The wrapper used without the standard library: an optional value that is
 * read as the wrapped type's default until something is first stored.
 */
module NoStd {
  import opened Common
  import opened ThreadSafety

  class ThreadsafeWrapper<T> {
    /** `T::default()`, which this model takes as a parameter. */
    const defaultValue: T
    var data: Option<T>

    /** The derived `Default`: nothing stored yet. */
    constructor (defaultValue: T)
      ensures this.defaultValue == defaultValue && data == None
    {
      this.defaultValue := defaultValue;
      data := None;
    }

    /** The value a decision sees: the stored one, or the default when none is stored. */
    function Current(): (v: T)
      reads this
      ensures data.Some? ==> v == data.value
      ensures data.None? ==> v == defaultValue
    {
      data.GetOr(defaultValue)
    }

    method MeasureAndReplace<E>(f: T --> (Result<(), E>, Option<T>)) returns (decision: Result<(), E>)
      requires f.requires(Current())
      modifies this
      ensures decision == f(old(Current())).0
      ensures data == if f(old(Current())).1.Some? then f(old(Current())).1 else old(data)
      ensures Current() == Replaced(old(Current()), f(old(Current())).1)
    {
      var (d, newData) := f(Current());
      if newData.Some? {
        data := newData;
      }
      decision := d;
    }

    method Snapshot() returns (r: T)
      ensures r == Current()
    {
      r := data.GetOr(defaultValue);
    }
  }
}
