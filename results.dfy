/** The failure values of the roster program.
    Every validation in the person and employee records throws the same
    IllegalArgumentException; the variants below tell the messages apart. */
module Results {

  datatype Error =
    | BlankName               // name is blank after trimming
    | FutureBirthDate         // birth date after the reference date
    | NonPositiveSalary       // salary <= 0
    | BlankRole               // role is blank after trimming
    | NegativePercent         // raise percentage < 0
    | NonPositiveMinimumWage  // minimum wage <= 0
    | MonthOutOfRange         // month outside 1..12

  /** A value, or the error that the source throws instead of returning it. */
  datatype Result<T> = Ok(value: T) | Err(error: Error) {

    predicate IsFailure() {
      Err?
    }

    function PropagateFailure<U>(): Result<U>
      requires Err?
    {
      Err(error)
    }

    function Extract(): T
      requires Ok?
    {
      value
    }
  }

  /** The outcome of a mutator that returns nothing on success. */
  datatype Outcome = Pass | Fail(error: Error) {

    predicate IsFailure() {
      Fail?
    }

    function PropagateFailure<U>(): Result<U>
      requires Fail?
    {
      Err(error)
    }
  }

  datatype Option<T> = None | Some(value: T)
}
