// Wrapper types shared by every module: Java's Optional becomes Option,
// and an operation that may throw an exception returns a Result.
module Common {

  datatype Option<+T> = None | Some(value: T)

  /** Ok carries the value; Err names the exception the Java code throws. */
  datatype Result<+T> = Ok(value: T) | Err(message: string)
  {
    predicate IsFailure() { Err? }

    function PropagateFailure<U>(): Result<U>
      requires Err?
    {
      Err(message)
    }

    function Extract(): T
      requires Ok?
    {
      value
    }
  }
}
