/**
 * The HTTP surface of the logistics endpoints, reduced to values: a reply is
 * a status code and a payload, and the JSON bodies and query parameters the
 * handlers read are records whose optional members are `Option`s (what a
 * Python `dict.get` gives back when the key is missing).
 */
module Http {

  datatype Option<T> = None | Some(value: T)

  /** A JSON payload: either the `{"error": ...}` object or the endpoint's own data. */
  datatype Payload<T> = Error(message: string) | Json(value: T)

  /** What a handler returns: the JSON payload and the status code beside it. */
  datatype Reply<T> = Reply(status: int, payload: Payload<T>)

  const OK: int := 200
  const BAD_REQUEST: int := 400
  const NOT_FOUND: int := 404
}
