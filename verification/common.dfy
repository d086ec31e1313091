/** Small shared vocabulary: optional values, results, and the HTTP replies the controllers produce. */
module Common {

  datatype Option<+T> = None | Some(value: T) {
    function GetOr(default: T): T {
      match this
      case Some(v) => v
      case None => default
    }
  }

  datatype Result<+R, +E> = Success(value: R) | Failure(error: E)

  // HTTP status codes used by the controllers.
  const StatusOk: nat := 200
  const StatusForbidden: nat := 403
  const StatusNotFound: nat := 404
  /** Status 422 is what the framework renders for a failed request validation. */
  const StatusUnprocessable: nat := 422
  /** Status 423 ("Locked", section 11.3 of RFC 4918) is used for an unverified login. */
  const StatusLocked: nat := 423

  /**
   * A reply of a controller action: a JSON body with a status, a redirect to a URL or to a
   * named route, or an error the framework raises and renders (a failed validation, a
   * model that was not found).
   */
  datatype Response<+P> =
    | Json(status: nat, body: P)
    | Redirect(location: string)
    | RedirectToRoute(route: string, flash: Option<string>)
    | RedirectIntended(fallbackRoute: string)
    | Error(status: nat, message: string)

  /** The JSON body that carries only a message. */
  datatype Message = Message(text: string)
}
