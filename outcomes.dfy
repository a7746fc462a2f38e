/** Typed outcomes of the use cases. The source raises `HTTPException`s with a
    status code and an optional detail text; here each exception is a value. */
module Outcomes {

  /** The HTTP errors the core raises, by status code. */
  datatype Error =
    | NotFound                      // 404, raised without a detail
    | Forbidden(detail: string)     // 403
    | BadRequest(detail: string)    // 400
    | Unauthorized(detail: string)  // 401

  datatype Option<+T> = None | Some(value: T)

  /** A use case that returns a value or raises. */
  datatype Result<+T> = Ok(value: T) | Err(error: Error)

  /** A use case (or a check) that returns nothing or raises. */
  datatype Outcome = Pass | Fail(error: Error)
}
