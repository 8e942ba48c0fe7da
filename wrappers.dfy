/** Optional values: a missing header, query parameter or body field, a SQL NULL,
    a lookup that found nothing, an upstream call that failed. */
module Wrappers {

  datatype Option<+T> = None | Some(value: T) {

    /** The wrapped value, or `default` when there is none. */
    function GetOr(default: T): T {
      match this
      case Some(v) => v
      case None => default
    }
  }
}

/** The HTTP status a handler answers with: 200, 400, 403, 404 or 500. */
module Http {
  datatype Status = Ok | BadRequest | Forbidden | NotFound | ServerError
}
