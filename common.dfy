/**
 * The application's uniform error value (`ErrorHandler`: a message and an
 * HTTP status) and the result every handler produces: a success payload or
 * the error it passes to `next`.
 */
module Common {

  datatype Option<+T> = None | Some(value: T)

  /** An `ErrorHandler(message, statusCode)`. The status is `None` when the
      handler constructs the error without one (the central error middleware
      then picks its own default, which is not part of this model). */
  datatype AppError = AppError(message: string, status: Option<nat>)

  /** What a handler ends with: `res.status(200).json(...)` carrying a value,
      or `next(error)`. */
  datatype Result<+T> = Ok(value: T) | Err(error: AppError)

  /** JavaScript truthiness of an optional string request field: `undefined`,
      `null` and `""` are falsy. */
  predicate Present(field: Option<string>)
  {
    field.Some? && field.value != ""
  }
}
