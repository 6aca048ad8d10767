/** Shared wrappers and the error taxonomy of the job-application service. */
module Common {

  datatype Option<+T> = None | Some(value: T)

  /** Pass, or the message of the first check that failed. */
  datatype Outcome = Pass | Fail(message: string)

  /**
   * The kinds of failure the service reports. Their mapping to HTTP status
   * codes belongs to the transport layer; only their distinctness matters here.
   */
  datatype Error =
    | SchemaError               // request body of the wrong shape: missing field, length cap, negative salary
    | DomainError(detail: string) // well-formed payload that breaks a business rule
    | QueryError(detail: string)  // unknown stage/status/order_by/order_dir in a query
    | NotFound                  // no record with that id
    | Unauthorized              // the API-key gate refused the call
    | StorageFailure            // the database refused the write (NOT NULL column set to null); HTTP 500 as well
    | ServerError               // an exception the handler does not catch

  datatype Result<+T> = Ok(value: T) | Err(error: Error)
}
