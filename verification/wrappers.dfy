/** An optional value. Native queries that can fail return one, and `:-`
    on it stops a computation at the first missing value. */
module Wrappers {

  datatype Option<+T> = Some(value: T) | None {

    /** The value, or `fallback` when there is none. */
    function GetOr(fallback: T): T {
      if Some? then value else fallback
    }

    // The three members below let `:-` be used on an Option.

    predicate IsFailure() {
      !Some?
    }

    function PropagateFailure<U>(): Option<U>
      requires !Some?
    {
      None
    }

    function Extract(): T
      requires Some?
    {
      value
    }
  }
}
