/** Shared outcome shapes of the recognition service. */
module Outcomes {

  /** The conventional optional value (`None` in Python). */
  datatype Option<+T> = None | Some(value: T)

  /**
   * What a handler returns: either its value, or the HTTP status of the
   * error response it produced instead (`jsonify({...}), 500`).
   */
  datatype Result<+T> = Ok(value: T) | Err(status: int)

  const BadRequest: int := 400
  const ServerError: int := 500
  const Success: int := 200
}
