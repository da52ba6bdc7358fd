/** Failure-compatible wrappers shared by every module of the model.
    The Java code signals its error cases by throwing; here each one is a
    value of `Error`, carried by `Result.Failure`. */
module Results {

  datatype Option<+T> = None | Some(value: T)

  /** The runtime exceptions the modelled code can raise. */
  datatype Error =
    | NumberFormat    // Integer.decode rejects a column compared with an Integer value
    | ColumnMissing   // a column index outside the split line (ArrayIndexOutOfBounds)
    | EmptyRightRow   // a right-role row projected to nothing: sb.replace(-1, 0, "")
    | MissingFormat   // an empty output-format array: format[0]
    | NotReady        // a facade step run before the step that produces its input (null field)

  datatype Result<+T> = Success(value: T) | Failure(error: Error) {

    predicate IsFailure() {
      Failure?
    }

    function PropagateFailure<U>(): Result<U>
      requires Failure?
    {
      Failure(error)
    }

    function Extract(): T
      requires Success?
    {
      value
    }
  }
}
