/** The error taxonomy of the handlers and the result type they return. A
    handler that raises `HTTPException(status_code, detail)` returns
    `Err(HttpError(status_code, detail))` in the model. */
module Http {

  datatype HttpError = HttpError(status: int, detail: string)

  datatype Result<+T> = Ok(value: T) | Err(error: HttpError)

  datatype Option<+T> = None | Some(value: T)

  /** Whether the external engine a handler imports at call time could be
      loaded; `reason` is the text of the import failure. */
  datatype Engine = Available | Unavailable(reason: string)

  const BadRequest: int := 400
  const NotFound: int := 404
  const ServerError: int := 500
}
