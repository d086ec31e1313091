/**
 * The client route guard for pages that need a verified account. It waits for the auth
 * state to be initialised, then sends a visitor who is not authenticated to the login page,
 * then sends an authenticated user without a verified email to the login page with
 * `verify=required`, and otherwise renders the page. Both redirects replace the history
 * entry and carry the current location so the login page can come back to it.
 */
module VerifiedRoute {

  import opened Js

  const LoginPath: string := "/login"
  const VerifyRequiredPath: string := "/login?verify=required"

  /** What the guard renders. `from` is the location it was asked to show. */
  datatype RouteOutcome =
    | RenderNothing
    | Navigate(to: string, from: string)
    | RenderChildren

  /** Whether the user object carries a truthy `email_verified_at`. */
  predicate EmailVerified(user: JsValue) {
    Truthy(Field(user, "email_verified_at"))
  }

  /** The guard's decision for the auth state it reads. */
  function Decide(initialized: bool, isAuthenticated: bool, user: JsValue, location: string)
    : (r: RouteOutcome)
    ensures !initialized <==> r == RenderNothing
    ensures r == RenderChildren <==> initialized && isAuthenticated && EmailVerified(user)
    ensures r == Navigate(LoginPath, location) <==> initialized && !isAuthenticated
    ensures r == Navigate(VerifyRequiredPath, location) <==>
      initialized && isAuthenticated && !EmailVerified(user)
    ensures r.Navigate? ==> r.from == location && r.to in {LoginPath, VerifyRequiredPath}
  {
    if !initialized then RenderNothing
    else if !isAuthenticated then Navigate(LoginPath, location)
    else if !EmailVerified(user) then Navigate(VerifyRequiredPath, location)
    else RenderChildren
  }

  /** A visitor who is not authenticated is never told to verify, whatever the user value holds. */
  lemma UnauthenticatedNeverAskedToVerify(initialized: bool, user: JsValue, location: string)
    ensures Decide(initialized, false, user, location).Navigate? ==>
      Decide(initialized, false, user, location).to == LoginPath
  {
  }

  /**
   * Only an object user with a truthy `email_verified_at` gets through: a null user (a
   * session known only by its token) or a user object without the field is sent to verify.
   */
  lemma OnlyVerifiedObjectsPass(user: JsValue, location: string)
    requires Decide(true, true, user, location) == RenderChildren
    ensures user.Object? && "email_verified_at" in user.fields
    ensures Truthy(user.fields["email_verified_at"])
  {
  }
}
