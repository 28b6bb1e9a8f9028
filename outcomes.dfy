/** The exceptions the decimal type throws, as values. */
module Outcomes {

  /** std::invalid_argument (bad text), std::out_of_range (std::stoull overflow),
      std::runtime_error (division by zero). */
  datatype Error = InvalidArgument | OutOfRange | DivisionByZero

  datatype Result<+T> = Ok(value: T) | Err(error: Error) {
    predicate IsFailure() { Err? }
    function PropagateFailure<U>(): Result<U>
      requires Err?
    {
      Err(error)
    }
    function Extract(): T
      requires Ok?
    {
      value
    }
  }

  /** boost::optional */
  datatype Option<+T> = None | Some(value: T)
}
