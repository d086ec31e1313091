/**
 * Resending the verification mail without a session, POST with an `email` field. After
 * validation the reply is always the same message, so the endpoint does not tell whether
 * an account exists or is verified. The mail goes only to the first user with that email,
 * and only when that user is not verified yet.
 *
 * The `email` validation rule is a parameter: whether a string is a valid address.
 */
module PublicResendVerificationController {

  import opened Common
  import opened Strings
  import opened Users
  import opened Sessions

  const RequiredMessage: string := "The email field is required."
  const InvalidEmailMessage: string := "The email field must be a valid email address."
  const SentMessage: string := "verification-link-sent"

  /** The `required` then `email` rules: None when both pass, else the message of the first to fail. */
  function EmailRuleFailure(email: Option<string>, isEmail: string -> bool): (r: Option<string>)
    ensures r.None? <==> email.Some? && Trim(email.value) != "" && isEmail(email.value)
    ensures r.Some? ==> r.value in {RequiredMessage, InvalidEmailMessage}
    ensures r == Some(RequiredMessage) <==> email.None? || Trim(email.value) == ""
  {
    if email.None? || Trim(email.value) == "" then Some(RequiredMessage)
    else if !isEmail(email.value) then Some(InvalidEmailMessage)
    else None
  }

  /** The outcome of store. */
  datatype ResendOutcome =
    | Invalid(message: string)
    /** Validation passed; `notify` is the id of the user to mail, if any. */
    | Accepted(notify: Option<nat>)

  /** The decision of store: a validation failure, or whom to mail (see ResendNotifiesFirstUnverified). */
  function ResendDecision(rows: seq<User>, email: Option<string>, isEmail: string -> bool)
    : (r: ResendOutcome)
    ensures r.Invalid? <==> EmailRuleFailure(email, isEmail).Some?
    ensures r.Invalid? ==> r.message == EmailRuleFailure(email, isEmail).value
  {
    match EmailRuleFailure(email, isEmail)
    case Some(message) => Invalid(message)
    case None =>
      match FindByEmail(rows, email.value)
      case None => Accepted(None)
      case Some(k) => if !HasVerifiedEmail(rows[k]) then Accepted(Some(rows[k].id)) else Accepted(None)
  }

  /**
   * Once validation passes, the mail goes to the first user with the email when that user
   * is unverified, and to nobody when there is no such user or the first one is verified.
   */
  lemma ResendNotifiesFirstUnverified(rows: seq<User>, email: Option<string>, isEmail: string -> bool)
    requires ResendDecision(rows, email, isEmail).Accepted?
    ensures email.Some?
    ensures var r := ResendDecision(rows, email, isEmail);
      r.notify.Some? ==>
        exists k :: 0 <= k < |rows| && rows[k].email == email.value && rows[k].id == r.notify.value
          && !HasVerifiedEmail(rows[k]) && forall j :: 0 <= j < k ==> rows[j].email != email.value
    ensures var r := ResendDecision(rows, email, isEmail);
      r.notify.None? ==>
        forall k :: 0 <= k < |rows| && rows[k].email == email.value ==>
          HasVerifiedEmail(rows[k]) || exists j :: 0 <= j < k && rows[j].email == email.value
  {
    var found := FindByEmail(rows, email.value);
    if found.Some? {
      var k := found.value;
      assert forall i :: 0 <= i < |rows| && rows[i].email == email.value && i != k ==> k < i;
    }
  }

  /** The reply for an outcome: a validation error, or the one fixed message. */
  function ResendReply(outcome: ResendOutcome): Response<Message> {
    match outcome
    case Invalid(message) => Error(StatusUnprocessable, message)
    case Accepted(_) => Json(StatusOk, Message(SentMessage))
  }

  /** The reply does not depend on the table: it tells nothing about the accounts. */
  lemma ReplyIndependentOfAccounts(rows1: seq<User>, rows2: seq<User>, email: Option<string>,
                                   isEmail: string -> bool)
    ensures ResendReply(ResendDecision(rows1, email, isEmail)) == ResendReply(ResendDecision(rows2, email, isEmail))
    ensures ResendReply(ResendDecision(rows1, email, isEmail)).Json? <==> EmailRuleFailure(email, isEmail).None?
  {
  }

  /** store: validate, look the user up, mail them if unverified, reply. */
  method Store(users: UserTable, events: EventLog, email: Option<string>, isEmail: string -> bool)
    returns (r: Response<Message>)
    modifies events
    ensures var outcome := ResendDecision(users.rows, email, isEmail);
      && r == ResendReply(outcome)
      && events.sent == old(events.sent) +
           (if outcome.Accepted? && outcome.notify.Some? then [VerificationMail(outcome.notify.value)] else [])
  {
    var failure := EmailRuleFailure(email, isEmail);
    if failure.Some? {
      return Error(StatusUnprocessable, failure.value);
    }
    var found := FindByEmail(users.rows, email.value);
    if found.Some? && !HasVerifiedEmail(users.rows[found.value]) {
      events.Dispatch(VerificationMail(users.rows[found.value].id));
    }
    r := Json(StatusOk, Message(SentMessage));
  }
}
