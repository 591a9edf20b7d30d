/** Option and Result values, and the JavaScript notion of a thrown value. */
module Wrappers {

  datatype Option<+T> = None | Some(value: T)

  datatype Result<+R, +E> = Success(value: R) | Failure(error: E)

  /** What a `catch (err)` clause receives: an `Error` object carrying a
      message, or any other value (JavaScript may throw anything). */
  datatype Thrown = ErrorValue(message: string) | NonError

  /** `err instanceof Error ? err.message : fallback`, the idiom every
      catch clause of the application uses. */
  function MessageOr(err: Thrown, fallback: string): (m: string)
    ensures err.ErrorValue? ==> m == err.message
    ensures err.NonError? ==> m == fallback
  {
    match err
    case ErrorValue(message) => message
    case NonError => fallback
  }
}
