/** Failure-compatible wrappers shared by every module of the model.

  Java's `null` becomes `Option.None`; a thrown exception becomes
  `Result.Failure` carrying a `Fault` named after the exception class.
 */
module Wrappers {

  datatype Option<+T> = None | Some(value: T) {
    function GetOr(default: T): T {
      match this
      case Some(v) => v
      case None => default
    }
  }

  /** The exceptions the modelled code can raise. */
  datatype Fault =
    | NullPointer(what: string)       // Objects.requireNonNull or a null dereference
    | ClassCast(what: string)         // a JSON value of the wrong shape, a Set read as a String, ...
    | IndexOutOfBounds                // List.get or String.charAt past the end
    | NotFound(location: string)      // no stream could be opened for a location
    | Malformed(location: string)     // the JSON decoder rejected the text
    | OutOfFuel                       // reference chain longer than the fuel given (see README)
    | InvalidLocale(offset: nat)      // java.text.ParseException with its error offset

  datatype Result<+T> = Success(value: T) | Failure(error: Fault) {
    predicate IsFailure() {
      Failure?
    }

    function PropagateFailure<U>(): Result<U>
      requires Failure?
    {
      Failure(error)
    }

    function Extract(): T
      requires Success?
    {
      value
    }
  }
}
