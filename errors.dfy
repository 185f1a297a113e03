/** Optional values, the service layer's exception kinds and results that carry either. */
module Errors {

  /** A value that may be absent: a Java `null` or an empty `Optional`. */
  datatype Option<+T> = None | Some(value: T)

  /** The exceptions the services throw, by kind. */
  datatype Error =
    | NotFound       // NotFoundException
    | AlreadyExists  // AlreadyExistsException
    | IllegalState   // IllegalStateException
    | AccessDeny     // AccessDenyException
    | Unauthorized   // UnauthorizedException
    | BadRequest     // the plain RuntimeException thrown by acceptRequest
    | NullPointer    // a dereference of a null field (only in the as-written models of the findings)

  /** Either the value an operation returns or the exception it throws. */
  datatype Result<+T> = Ok(value: T) | Err(error: Error)

  /** The outcome of an operation that returns nothing (a Java `void` method). */
  datatype Outcome = Done | Fail(error: Error)
}
