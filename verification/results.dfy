/** Optional values, the failures the services raise, and a result type carrying either. */
module Results {

  /** A nullable column or an optional payload field. */
  datatype Option<+T> = None | Some(value: T)

  /** The HTTP failures raised by the services: 404, 403, 400 and 500. `ServerError`
      stands for the 500 responses that come from the database or from an uncaught
      Python exception. */
  datatype Error = NotFound | Forbidden | BadRequest | ServerError

  /** The outcome of a service call: the new state or value, or the failure raised. */
  datatype Result<+T> = Ok(value: T) | Fail(error: Error)
}
