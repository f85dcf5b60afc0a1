/** What a request handler answers. */
module Http {
  /** The value of a 200/201 answer, or the error status sent instead (400, 404, 429, 500). */
  datatype Outcome<T> = Ok(value: T) | BadRequest | NotFound | TooManyRequests | ServerError
}
