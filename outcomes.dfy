/** The exceptions the storage engine throws, as values. */
module Outcomes {

  /** One constructor per exception the segmented store can raise. */
  datatype Error =
    | AlreadyCreated      // create on a store that already has segments
    | AlreadyInitialized  // loadExisting on a store that already has segments
    | AlreadyClosed       // loadExisting after close
    | NegativeCapacity    // a negative byte count asked of the growth path
    | TooManySegments     // the segment count does not fit in a Java int
    | ZeroSegments        // the growth path computed zero segments
    | IndexOutOfBounds    // a segment number or an offset beyond the table or the segment
    | ReadOnlyBuffer      // a write into a segment mapped read-only

  /** The result of an operation that returns a value or throws. */
  datatype Result<T> = Ok(value: T) | Err(error: Error)

  /** The result of an operation that returns nothing or throws. */
  datatype Outcome = Pass | Fail(error: Error)
}
