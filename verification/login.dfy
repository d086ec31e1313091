/**
 * Logging in and out through the session guard. A login by a user whose email is not
 * verified is undone at once: the guard logs the user out, the session is invalidated and
 * the CSRF token regenerated, and the reply is 423 (or a redirect to the login page with
 * `verify=required`). A verified login regenerates the session.
 *
 * The credential check of the login form request (field rules, rate limiting, the password
 * hash) is not part of this model: it is the `attempt` parameter, the user the guard's
 * attempt accepted, or None when it refused the credentials.
 */
module AuthenticatedSessionController {

  import opened Common
  import opened Users
  import opened Sessions

  /** The JSON bodies of this controller. */
  datatype SessionPayload =
    | SessionMessage(message: string)
    | LoggedIn(message: string, user: User)

  /** The framework's message for credentials the guard refused. */
  const FailedMessage: string := "These credentials do not match our records."
  const NotVerifiedMessage: string := "email-not-verified"
  const VerifyRequiredPath: string := "/login?verify=required"
  const LoggedInMessage: string := "Logged in"
  const LoggedOutMessage: string := "Logged out"

  /** The steps that end a session: logout, invalidate, new CSRF token. */
  const EndSessionSteps: seq<SessionStep> := [LogoutStep, InvalidateStep, RegenerateTokenStep]

  /** The session steps store takes for an accepted user. */
  function LoginSteps(u: User): (steps: seq<SessionStep>)
    ensures |steps| >= 2 && steps[0] == LoginStep(u.id)
    ensures LogoutStep in steps <==> !HasVerifiedEmail(u)
  {
    if HasVerifiedEmail(u) then [LoginStep(u.id), RegenerateStep]
    else [LoginStep(u.id)] + EndSessionSteps
  }

  /** After store, whatever the session held before, the guard holds the user iff the email is verified. */
  lemma LoginKeepsOnlyVerified(before: seq<SessionStep>, u: User)
    ensures GuardUser(before + LoginSteps(u)) == if HasVerifiedEmail(u) then Some(u.id) else None
  {
    if HasVerifiedEmail(u) {
      GuardUserSnoc(before, LoginStep(u.id));
      GuardUserSnoc(before + [LoginStep(u.id)], RegenerateStep);
      assert before + LoginSteps(u) == before + [LoginStep(u.id)] + [RegenerateStep];
    } else {
      NoUserAfterLogout(before + [LoginStep(u.id)], [InvalidateStep, RegenerateTokenStep]);
      assert before + LoginSteps(u) == before + [LoginStep(u.id)] + [LogoutStep] + [InvalidateStep, RegenerateTokenStep];
    }
  }

  /** After destroy the guard holds no user. */
  lemma LogoutKeepsNoUser(before: seq<SessionStep>)
    ensures GuardUser(before + EndSessionSteps) == None
  {
    NoUserAfterLogout(before, [InvalidateStep, RegenerateTokenStep]);
    assert before + EndSessionSteps == before + [LogoutStep] + [InvalidateStep, RegenerateTokenStep];
  }

  /** The reply of store for an accepted user. */
  function LoginReply(u: User, expectsJson: bool): Response<SessionPayload> {
    if !HasVerifiedEmail(u) then
      if expectsJson then Json(StatusLocked, SessionMessage(NotVerifiedMessage)) else Redirect(VerifyRequiredPath)
    else
      if expectsJson then Json(StatusOk, LoggedIn(LoggedInMessage, u)) else RedirectIntended("dashboard")
  }

  /** store: authenticate, then turn an unverified user away or regenerate the session. */
  method Store(session: Session, attempt: Option<User>, expectsJson: bool)
    returns (r: Response<SessionPayload>)
    requires session.Valid()
    modifies session
    ensures session.Valid()
    ensures attempt.None? ==>
      && r == Error(StatusUnprocessable, FailedMessage)
      && session.user == old(session.user) && session.id == old(session.id)
      && session.csrfToken == old(session.csrfToken) && session.attributes == old(session.attributes)
      && session.steps == old(session.steps)
    ensures attempt.Some? ==>
      && r == LoginReply(attempt.value, expectsJson)
      && session.steps == old(session.steps) + LoginSteps(attempt.value)
      && session.user == (if HasVerifiedEmail(attempt.value) then Some(attempt.value.id) else None)
      && session.id != old(session.id) && session.csrfToken.Some? && session.csrfToken != old(session.csrfToken)
      && session.attributes == (if HasVerifiedEmail(attempt.value) then old(session.attributes) else map[])
  {
    if attempt.None? {
      return Error(StatusUnprocessable, FailedMessage);
    }
    var u := attempt.value;
    session.Login(u.id);
    if !HasVerifiedEmail(u) {
      session.Logout();
      session.Invalidate();
      session.RegenerateToken();
      if expectsJson {
        return Json(StatusLocked, SessionMessage(NotVerifiedMessage));
      }
      return Redirect(VerifyRequiredPath);
    }
    session.Regenerate();
    if expectsJson {
      r := Json(StatusOk, LoggedIn(LoggedInMessage, u));
    } else {
      r := RedirectIntended("dashboard");
    }
  }

  /** destroy: log out, invalidate the session, regenerate the token. */
  method Destroy(session: Session, expectsJson: bool) returns (r: Response<SessionPayload>)
    requires session.Valid()
    modifies session
    ensures session.Valid()
    ensures session.user.None? && session.attributes == map[]
    ensures session.id != old(session.id) && session.csrfToken.Some? && session.csrfToken != old(session.csrfToken)
    ensures session.steps == old(session.steps) + EndSessionSteps
    ensures r == if expectsJson then Json(StatusOk, SessionMessage(LoggedOutMessage)) else Redirect("/")
  {
    session.Logout();
    session.Invalidate();
    session.RegenerateToken();
    if expectsJson {
      r := Json(StatusOk, SessionMessage(LoggedOutMessage));
    } else {
      r := Redirect("/");
    }
  }
}
