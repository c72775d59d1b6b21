/** Failure-compatible wrappers shared by every module of the model. */
module Wrappers {

  /** A value that may be absent; stands for a nullable Java reference. */
  datatype Option<+T> = None | Some(value: T)

  /** Either a value or the exception the Java code would throw instead. */
  datatype Result<+T, +E> = Ok(value: T) | Err(error: E) {

    predicate IsFailure() {
      Err?
    }

    function PropagateFailure<U>(): Result<U, E>
      requires Err?
    {
      Err(error)
    }

    function Extract(): T
      requires Ok?
    {
      value
    }

    /** The value, or `default` for an error. */
    function GetOr(default: T): T {
      if Ok? then value else default
    }
  }

  /** The exceptions the buffered I/O layer raises. */
  datatype IoError =
    | EndOfStream       // java.io.EOFException
    | IllegalArgument   // IllegalArgumentException
    | IndexOutOfBounds  // ArrayIndexOutOfBoundsException, StringIndexOutOfBoundsException
    | NullPointer       // NullPointerException from dereferencing an absent ring head
}
