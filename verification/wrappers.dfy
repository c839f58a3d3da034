/**
 * Java's null references and thrown exceptions, as values.
 *
 * A field or argument that may be `null` in the program is an `Option`; an
 * operation that may throw is a `Result` whose failure names the exception.
 */
module Wrappers {

  /** A value that may be absent (`null` in the program). */
  datatype Option<+T> = None | Some(value: T) {

    /** The value, or `default` when absent (`Optional.ofNullable(x).orElse(d)`). */
    function GetOr(default: T): T {
      match this
      case Some(v) => v
      case None => default
    }
  }

  /** The exceptions the modelled code can raise or let through. */
  datatype Failure =
    | IllegalArgument      // IllegalArgumentException thrown by a precondition check
    | IndexOutOfBounds     // StringIndexOutOfBoundsException from `substring`
    | NullPointer          // NullPointerException from dereferencing a null result
    | InvalidPath          // InvalidPathException from `Paths.get`
    | NegativeArraySize    // NegativeArraySizeException from `new float[n]` / `Arrays.copyOf`
    | BackendError         // any failure of the vector store or the inference runtime

  /** The outcome of an operation that either returns a value or throws. */
  datatype Result<+T> = Ok(value: T) | Err(failure: Failure) {

    predicate IsFailure() {
      Err?
    }

    function PropagateFailure<U>(): Result<U>
      requires Err?
    {
      Err(failure)
    }

    function Extract(): T
      requires Ok?
    {
      value
    }
  }
}
