/** Option and Result, the two failure-carrying datatypes the model uses
    for PHP's `null` and for exceptions. */
module Wrappers {

  /** A possibly missing value: PHP's `null`, an unset array key. */
  datatype Option<T> = None | Some(value: T) {

    /** The value, or `default` when missing. */
    function GetOr(default: T): T {
      match this
      case Some(v) => v
      case None => default
    }

    /** PHP's `$a ?? $b`: this when present, else `other`. */
    function OrElse(other: Option<T>): Option<T> {
      if Some? then this else other
    }
  }

  /** The outcome of an operation that may throw: `Err` carries the
      exception's message. */
  datatype Result<T> = Ok(value: T) | Err(message: string)
}
