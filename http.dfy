/** What a request handler answers, and the query-string bounds the framework
    checks before a handler runs. */
module Http {

  /** A handler's answer: 200 `Ok`, 201 `Created`, 204 `NoContent`, 400
      `BadRequest`, 404 `NotFound`, 422 `Unprocessable`, 500 `ServerError`.
      `Unprocessable` is the framework's answer to a request that fails its
      schema; `ServerError` is an exception escaping the handler or an
      explicit 500. */
  datatype Reply<T> =
    | Ok(value: T)
    | Created(value: T)
    | NoContent
    | BadRequest
    | NotFound
    | Unprocessable
    | ServerError

  /** `skip: Query(0, ge=0)` and `limit: Query(100, ge=1, le=1000)`. */
  predicate PagingValid(skip: int, limit: int) {
    skip >= 0 && 1 <= limit <= 1000
  }
}
