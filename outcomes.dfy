/** Results shared by both services: the gRPC status codes the handlers
    raise, the errors the relational store reports, and the failures of the
    store's connection that no table contents can explain. */
module Outcomes {

  datatype Option<+T> = None | Some(value: T)

  datatype Result<+T, +E> = Ok(value: T) | Err(error: E)

  /** The gRPC status codes the handlers raise themselves. */
  datatype Code = NotFound | AlreadyExists | Internal

  /** An error reported by the relational store for one statement. */
  datatype DbError =
    | NoRows                 // a single-row query returned no row (sql.ErrNoRows)
    | UniqueViolation        // a unique constraint was violated (SQLSTATE 23505)
    | Driver(reason: string) // any other failure of the driver, connection or server

  /** What a handler returns on failure: a status it built itself, or the
      store's error passed through unclassified. */
  datatype Error =
    | Status(code: Code, message: string)
    | Raw(cause: DbError)

  /** A driver failure of one statement, an input of the model because it
      depends on the connection rather than on the tables. */
  datatype Fault = Healthy | Fails(reason: string)

  /** The reply of a handler together with the state of the store after it. */
  datatype Step<S, T> = Step(result: Result<T, Error>, state: S)
}
