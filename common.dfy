/** Values shared by every part of the model of server.js. */
module Common {

  /** An optional value: a JavaScript value that may be `undefined` or `null`. */
  datatype Option<T> = None | Some(value: T)

  /**
   * What a handler sends back: a JSON body with status 200, or an error
   * status with the `{ error: ... }` message.
   */
  datatype Response<T> = Ok(body: T) | Fail(status: int, error: string)

  /** HTTP status codes the server sends. */
  const STATUS_UNAUTHORIZED := 401
  const STATUS_FORBIDDEN := 403
  const STATUS_SERVER_ERROR := 500
}
