/** A value that may be absent: a JSON field that the response did not
    carry, or a read that did not succeed.  Failure-compatible, so that a
    reader can be written with `:-`. */
module Wrappers {
  datatype Option<+T> = None | Some(value: T) {
    predicate IsFailure() {
      None?
    }

    function PropagateFailure<U>(): Option<U>
      requires None?
    {
      None
    }

    function Extract(): T
      requires Some?
    {
      value
    }
  }
}
