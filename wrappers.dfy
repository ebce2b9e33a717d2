/** Option and Result, the failure-compatible wrappers every module uses for nullable values and exceptions. */
module Wrappers {

  /** A value that may be absent: C#'s `null` and `Nullable<T>`. */
  datatype Option<+T> = None | Some(value: T) {
    predicate IsFailure() { None? }

    function PropagateFailure<U>(): Option<U>
      requires None?
    {
      None
    }

    function Extract(): T
      requires Some?
    {
      value
    }

    /** The `??` operator: the value, or `default` when absent. */
    function GetOr(default: T): T {
      if Some? then value else default
    }
  }

  /** The outcome of a call that may throw: its value, or the exception it raises. */
  datatype Result<+R, +E> = Success(value: R) | Failure(error: E) {
    predicate IsFailure() { Failure? }

    function PropagateFailure<U>(): Result<U, E>
      requires Failure?
    {
      Failure(error)
    }

    function Extract(): R
      requires Success?
    {
      value
    }
  }
}

/** The .NET exceptions the modelled code raises or lets through. */
module Exceptions {
  datatype Exception =
    | ArgumentNullException       // a required reference argument was null
    | ArgumentException           // a Timeslot with invalid bounds
    | CronFormatException         // a rule the cron library cannot parse
    | NullReferenceException      // a member read through a null reference
    | InvalidOperationException   // `.Value` read from an empty Nullable
    | FormatException             // a date string that does not match the expected format
}
