/** Option, Result and Outcome: the error paths of the source (nil pointers,
    fatal log calls and runtime panics) as values. */
module Wrappers {

  datatype Option<+T> = None | Some(value: T)

  datatype Result<+R, +E> = Success(value: R) | Failure(error: E)

  datatype Outcome<+E> = Pass | Fail(error: E)

  /** The Go runtime panics the schedulers can raise. */
  datatype Panic =
    | MakeSliceLenOutOfRange   // make([]T, n) with a negative n
    | IntegerDivideByZero      // i % 0
    | DequeOverflow            // panic("deque overflow")
    | InvalidSchedulingScheme  // Schedule's panic on an unknown mode
}
