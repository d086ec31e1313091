/**
 * The framework state a request touches besides the database: the server-side session
 * with the web guard's logged-in user and the CSRF token, and a log of the events and
 * notifications the application dispatches.
 *
 * Session ids and CSRF tokens are random strings in the framework; here they are numbers:
 * a new id is the old one plus one, and a new token is the count of tokens issued so far.
 * Only "the new value differs from the old one" is relied on.
 */
module Sessions {

  import opened Common

  /** What was done to the session, in order. */
  datatype SessionStep = LoginStep(user: nat) | LogoutStep | InvalidateStep | RegenerateTokenStep | RegenerateStep

  /**
   * The user the guard holds after the steps, starting from a fresh session: the user of
   * the last login, unless a logout came after it. Invalidating the session or
   * regenerating its id or token does not touch the guard's user.
   */
  function GuardUser(steps: seq<SessionStep>): Option<nat>
    decreases |steps|
  {
    if steps == [] then None
    else match steps[|steps| - 1]
      case LoginStep(u) => Some(u)
      case LogoutStep => None
      case _ => GuardUser(steps[..|steps| - 1])
  }

  /** One more step: a login or logout decides, anything else keeps the user. */
  lemma GuardUserSnoc(steps: seq<SessionStep>, step: SessionStep)
    ensures GuardUser(steps + [step]) ==
      match step
      case LoginStep(u) => Some(u)
      case LogoutStep => None
      case _ => GuardUser(steps)
  {
    assert (steps + [step])[..|steps|] == steps;
  }

  /** A session ending with a logout holds no user, whatever follows that is not a login. */
  lemma {:induction false} NoUserAfterLogout(steps: seq<SessionStep>, after: seq<SessionStep>)
    requires forall i :: 0 <= i < |after| ==> !after[i].LoginStep?
    ensures GuardUser(steps + [LogoutStep] + after) == None
    decreases |after|
  {
    if after == [] {
      GuardUserSnoc(steps, LogoutStep);
      assert steps + [LogoutStep] + after == steps + [LogoutStep];
    } else {
      var front := after[..|after| - 1];
      NoUserAfterLogout(steps, front);
      assert steps + [LogoutStep] + after == (steps + [LogoutStep] + front) + [after[|after| - 1]];
      GuardUserSnoc(steps + [LogoutStep] + front, after[|after| - 1]);
    }
  }

  class Session {
    /**
     * The user the web guard holds in memory for this request, if any. Flushing the
     * session's attributes does not clear it; only a logout does.
     */
    var user: Option<nat>
    var id: nat
    /** The `_token` attribute; a flush removes it until a token is generated again. */
    var csrfToken: Option<nat>
    /** How many CSRF tokens were generated so far; the next one is this number. */
    var tokensIssued: nat
    var attributes: map<string, string>
    /** Every step applied so far, oldest first. */
    var steps: seq<SessionStep>

    /** The guard's user is the one the recorded steps leave; the token is an issued one. */
    ghost predicate Valid()
      reads this
    {
      && user == GuardUser(steps)
      && (csrfToken.Some? ==> csrfToken.value < tokensIssued)
    }

    constructor (id0: nat, token0: nat)
      ensures Valid()
      ensures user == None && id == id0 && csrfToken == Some(token0)
      ensures attributes == map[] && steps == []
    {
      user, id, csrfToken, tokensIssued, attributes, steps := None, id0, Some(token0), token0 + 1, map[], [];
    }

    /**
     * The guard logs a user in: it puts the login key in the session and migrates the
     * session to a new id (migrate(true)); the token and the other attributes stay.
     */
    method Login(uid: nat)
      requires Valid()
      modifies this
      ensures Valid()
      ensures user == Some(uid)
      ensures id > old(id)
      ensures csrfToken == old(csrfToken) && tokensIssued == old(tokensIssued) && attributes == old(attributes)
      ensures steps == old(steps) + [LoginStep(uid)]
    {
      user := Some(uid);
      id := id + 1;
      GuardUserSnoc(steps, LoginStep(uid));
      steps := steps + [LoginStep(uid)];
    }

    /** Auth::guard('web')->logout(): the guard forgets its user. */
    method Logout()
      requires Valid()
      modifies this
      ensures Valid()
      ensures user == None
      ensures id == old(id) && csrfToken == old(csrfToken) && tokensIssued == old(tokensIssued)
      ensures attributes == old(attributes)
      ensures steps == old(steps) + [LogoutStep]
    {
      user := None;
      GuardUserSnoc(steps, LogoutStep);
      steps := steps + [LogoutStep];
    }

    /**
     * session()->invalidate(): flush every attribute, the CSRF token included, and move to
     * a new session id.
     */
    method Invalidate()
      requires Valid()
      modifies this
      ensures Valid()
      ensures attributes == map[] && csrfToken == None && id > old(id)
      ensures user == old(user) && tokensIssued == old(tokensIssued)
      ensures steps == old(steps) + [InvalidateStep]
    {
      attributes := map[];
      csrfToken := None;
      id := id + 1;
      GuardUserSnoc(steps, InvalidateStep);
      steps := steps + [InvalidateStep];
    }

    /** session()->regenerateToken(): a CSRF token never issued before. */
    method RegenerateToken()
      requires Valid()
      modifies this
      ensures Valid()
      ensures csrfToken == Some(old(tokensIssued)) && csrfToken != old(csrfToken)
      ensures tokensIssued == old(tokensIssued) + 1
      ensures user == old(user) && id == old(id) && attributes == old(attributes)
      ensures steps == old(steps) + [RegenerateTokenStep]
    {
      csrfToken := Some(tokensIssued);
      tokensIssued := tokensIssued + 1;
      GuardUserSnoc(steps, RegenerateTokenStep);
      steps := steps + [RegenerateTokenStep];
    }

    /** session()->regenerate(): a new CSRF token and a new session id, attributes kept. */
    method Regenerate()
      requires Valid()
      modifies this
      ensures Valid()
      ensures id > old(id) && csrfToken == Some(old(tokensIssued)) && csrfToken != old(csrfToken)
      ensures tokensIssued == old(tokensIssued) + 1
      ensures user == old(user) && attributes == old(attributes)
      ensures steps == old(steps) + [RegenerateStep]
    {
      id := id + 1;
      csrfToken := Some(tokensIssued);
      tokensIssued := tokensIssued + 1;
      GuardUserSnoc(steps, RegenerateStep);
      steps := steps + [RegenerateStep];
    }
  }

  /** Something the application dispatched: an event, or a notification to be mailed. */
  datatype Dispatched = VerifiedEvent(user: nat) | VerificationMail(user: nat)

  class EventLog {
    var sent: seq<Dispatched>

    constructor ()
      ensures sent == []
    {
      sent := [];
    }

    method Dispatch(d: Dispatched)
      modifies this
      ensures sent == old(sent) + [d]
    {
      sent := sent + [d];
    }
  }
}
