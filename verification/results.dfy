/** Failure-carrying datatypes shared by the whole model.

    The source signals failures with Java exceptions; the model makes them an
    explicit, closed set of error kinds carried by a `Result`. */
module Results {

  /** A Java reference that may be null. */
  datatype Option<+T> = None | Some(value: T)

  /** The failure kinds the modelled code can raise. */
  datatype Error =
    | NullPointer                 // a null dereference (Objects.requireNonNull, value.getClass())
    | ArgumentError(msg: string)  // IllegalArgumentException
    | FormatError(msg: string)    // IllegalStateException("Not a JSON")
    | ClassCast                   // a failed cast of a parsed element to Map
    | IndexOutOfBounds            // String.substring past the end

  datatype Result<+T> = Ok(value: T) | Err(error: Error) {

    predicate IsFailure() {
      Err?
    }

    function PropagateFailure<U>(): Result<U>
      requires Err?
    {
      Err(error)
    }

    function Extract(): T
      requires Ok?
    {
      value
    }
  }
}
