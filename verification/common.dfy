/** Failure-carrying values shared by the todo store model.

    The service raises NestJS exceptions; here every operation returns a
    `Result` instead, so that the error path is part of each contract.
 */
module Common {

  /** An optional field: absent (`undefined` in the source) or present. */
  datatype Option<T> = None | Some(value: T) {

    /** The present value, or `default` when absent. */
    function GetOr(default: T): T {
      match this
      case Some(v) => v
      case None => default
    }
  }

  /** The errors a request can end in.
      - `NotFound` is the 404 the service throws for a missing or foreign todo;
      - `BadRequest` is the 400 of the validation layer, carrying the names of
        every field that failed (the validator reports all of them at once). */
  datatype Error =
    | NotFound(message: string)
    | BadRequest(fields: set<string>)

  datatype Result<T> = Ok(value: T) | Err(error: Error)
}
