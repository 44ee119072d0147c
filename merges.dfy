/**
 * A minimal stand-in for `Merge<T>`: an odd-length list of values read as
 * add, remove, add, ..., add. Equality is equality of the lists.
 */
module Merges {
  import opened Wrappers

  datatype Merge<T> = Merge(values: seq<T>) {
    predicate Valid() {
      |values| % 2 == 1
    }

    /** The single value of a conflict-free merge. */
    function AsResolved(): (r: Option<T>)
      ensures r.Some? <==> |values| == 1
    {
      if |values| == 1 then Some(values[0]) else None
    }
  }

  /** `Merge::resolved(value)`: the merge with no conflict. */
  function Resolved<T>(value: T): (m: Merge<T>)
    ensures m.Valid() && m.AsResolved() == Some(value)
  {
    Merge([value])
  }
}
