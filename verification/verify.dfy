/**
 * The signed email-verification link, GET /verify-email/{id}/{hash}, which works without a
 * session. The checks come in a fixed order: the URL signature, then the user lookup, then
 * the hash, which must equal sha1 of the user's current email. A user who is not verified
 * yet is marked verified and a Verified event is fired; a user who already is stays as is.
 * The reply is a JSON message or a redirect to the frontend's login page.
 *
 * The signature check and sha1 are parameters: the signature is a boolean computed by the
 * framework from the full URL and the application key, and sha1 is a function on strings.
 */
module PublicVerifyEmailController {

  import opened Common
  import opened Strings
  import opened Users
  import opened Sessions
  import opened FrontendOrigins
  import ProfileController

  const InvalidLinkMessage: string := "Invalid or expired verification link"
  const InvalidHashMessage: string := "Invalid verification hash"
  /** The framework's reply when findOrFail finds no row. */
  const NotFoundMessage: string := "Not Found"
  const VerifiedMessage: string := "Email verified"
  /** The frontend path the browser is sent to. */
  const LoginVerifiedPath: string := "/login?verified=1"

  /** The outcome of the three checks. */
  datatype VerifyOutcome =
    | Rejected(status: nat, message: string)
    /** The link is good for the row at position `k`; `newlyVerified` when it was not verified before. */
    | Accepted(k: nat, newlyVerified: bool)

  /** The checks, in the order the controller makes them. */
  function VerifyDecision(rows: seq<User>, signatureValid: bool, id: nat, hash: string,
                          sha1: string -> string): (r: VerifyOutcome)
    ensures !signatureValid ==> r == Rejected(StatusForbidden, InvalidLinkMessage)
    ensures signatureValid && FindById(rows, id).None? ==> r == Rejected(StatusNotFound, NotFoundMessage)
    ensures r.Accepted? <==>
      signatureValid && FindById(rows, id).Some? && hash == sha1(rows[FindById(rows, id).value].email)
    ensures r.Accepted? ==>
      r.k < |rows| && rows[r.k].id == id && (r.newlyVerified <==> !HasVerifiedEmail(rows[r.k]))
    ensures signatureValid && FindById(rows, id).Some? && hash != sha1(rows[FindById(rows, id).value].email) ==>
      r == Rejected(StatusForbidden, InvalidHashMessage)
    ensures r.Rejected? ==> r.status in {StatusForbidden, StatusNotFound}
  {
    if !signatureValid then Rejected(StatusForbidden, InvalidLinkMessage)
    else match FindById(rows, id)
      case None => Rejected(StatusNotFound, NotFoundMessage)
      case Some(k) =>
        if hash != sha1(rows[k].email) then Rejected(StatusForbidden, InvalidHashMessage)
        else Accepted(k, !HasVerifiedEmail(rows[k]))
  }

  /** The table after the request: only a newly verified row changes, and only its timestamp. */
  function RowsAfter(rows: seq<User>, outcome: VerifyOutcome, now: Timestamp): (r: seq<User>)
    requires outcome.Accepted? ==> outcome.k < |rows|
    ensures |r| == |rows|
    ensures forall j :: (0 <= j < |rows| && !(outcome.Accepted? && outcome.newlyVerified && j == outcome.k)
      ==> r[j] == rows[j])
    ensures outcome.Accepted? && outcome.newlyVerified ==>
      r[outcome.k] == rows[outcome.k].(emailVerifiedAt := Some(now))
  {
    if outcome.Accepted? && outcome.newlyVerified then
      rows[outcome.k := rows[outcome.k].(emailVerifiedAt := Some(now))]
    else rows
  }

  /** The reply for an accepted link, given the frontend base. */
  function VerifiedReply(base: string, wantsJson: bool): Response<Message> {
    if wantsJson then Json(StatusOk, Message(VerifiedMessage))
    else Redirect(JoinPath(base, LoginVerifiedPath))
  }

  /**
   * __invoke. `wantsJson` is expectsJson() || wantsJson() of the request; `now` is the
   * clock's value when the user is marked verified.
   */
  method Invoke(users: UserTable, events: EventLog, settings: Settings, signatureValid: bool,
                id: nat, hash: string, sha1: string -> string, now: Timestamp, wantsJson: bool)
    returns (r: Response<Message>)
    requires users.Valid()
    modifies users, events
    ensures users.Valid()
    ensures var outcome := VerifyDecision(old(users.rows), signatureValid, id, hash, sha1);
      && users.rows == RowsAfter(old(users.rows), outcome, now)
      && events.sent == old(events.sent) + (if outcome.Accepted? && outcome.newlyVerified then [VerifiedEvent(id)] else [])
    ensures var outcome := VerifyDecision(old(users.rows), signatureValid, id, hash, sha1);
      && (outcome.Rejected? ==> r == Json(outcome.status, Message(outcome.message)))
      && (outcome.Accepted? ==> r == VerifiedReply(RedirectBase(settings), wantsJson))
  {
    ghost var outcome := VerifyDecision(users.rows, signatureValid, id, hash, sha1);
    if !signatureValid {
      assert outcome == Rejected(StatusForbidden, InvalidLinkMessage);
      return Json(StatusForbidden, Message(InvalidLinkMessage));
    }
    var found := FindById(users.rows, id);
    if found.None? {
      assert outcome == Rejected(StatusNotFound, NotFoundMessage);
      return Json(StatusNotFound, Message(NotFoundMessage));
    }
    var k := found.value;
    var user := users.rows[k];
    if hash != sha1(user.email) {
      assert outcome == Rejected(StatusForbidden, InvalidHashMessage);
      return Json(StatusForbidden, Message(InvalidHashMessage));
    }
    assert outcome == Accepted(k, !HasVerifiedEmail(user));
    MarkVerified(users, events, k, now);
    r := AcceptedReply(settings, wantsJson);
  }

  /** Marks the row at k verified and fires Verified, unless it is verified already. */
  method MarkVerified(users: UserTable, events: EventLog, k: nat, now: Timestamp)
    requires users.Valid() && k < |users.rows|
    modifies users, events
    ensures users.Valid()
    ensures var outcome := Accepted(k, !HasVerifiedEmail(old(users.rows)[k]));
      && users.rows == RowsAfter(old(users.rows), outcome, now)
      && events.sent == old(events.sent) + (if outcome.newlyVerified then [VerifiedEvent(old(users.rows)[k].id)] else [])
  {
    var user := users.rows[k];
    if !HasVerifiedEmail(user) {
      users.Save(k, user.(emailVerifiedAt := Some(now)));
      events.Dispatch(VerifiedEvent(user.id));
    }
  }

  /** The reply once the link is accepted: JSON, or the redirect to the frontend's login page. */
  method AcceptedReply(settings: Settings, wantsJson: bool) returns (r: Response<Message>)
    ensures r == VerifiedReply(RedirectBase(settings), wantsJson)
  {
    var base := SelectBase(settings);
    var redirect := JoinPath(base, LoginVerifiedPath);
    if wantsJson {
      r := Json(StatusOk, Message(VerifiedMessage));
    } else {
      r := Redirect(redirect);
    }
  }

  /** An accepted link leaves the user verified, whichever way it was before. */
  lemma AcceptedLeavesVerified(rows: seq<User>, signatureValid: bool, id: nat, hash: string,
                               sha1: string -> string, now: Timestamp)
    requires VerifyDecision(rows, signatureValid, id, hash, sha1).Accepted?
    ensures var outcome := VerifyDecision(rows, signatureValid, id, hash, sha1);
      HasVerifiedEmail(RowsAfter(rows, outcome, now)[outcome.k])
  {
  }

  /**
   * Following the same link twice: the second request is accepted again, verifies nothing
   * new, fires no second event and leaves the table as the first left it.
   */
  lemma SecondClickChangesNothing(rows: seq<User>, signatureValid: bool, id: nat, hash: string,
                                  sha1: string -> string, now: Timestamp, later: Timestamp)
    requires VerifyDecision(rows, signatureValid, id, hash, sha1).Accepted?
    ensures var after := RowsAfter(rows, VerifyDecision(rows, signatureValid, id, hash, sha1), now);
      var again := VerifyDecision(after, signatureValid, id, hash, sha1);
      && again.Accepted? && !again.newlyVerified
      && RowsAfter(after, again, later) == after
  {
    var first := VerifyDecision(rows, signatureValid, id, hash, sha1);
    var after := RowsAfter(rows, first, now);
    FindByIdAfterUpdate(rows, id, first.k, after[first.k]);
    assert after == rows[first.k := after[first.k]];
  }

  /** Replacing the row found for id by a row with the same id keeps it the row found. */
  lemma FindByIdAfterUpdate(rows: seq<User>, id: nat, k: nat, u: User)
    requires FindById(rows, id) == Some(k) && u.id == id
    ensures FindById(rows[k := u], id) == Some(k)
  {
    assert rows[k := u][k].id == id;
  }

  /**
   * After a profile update changes the email, the user is no longer verified and a link
   * made for the old email no longer verifies, as long as sha1 tells the two emails apart.
   */
  lemma EmailChangeVoidsOldLink(rows: seq<User>, k: nat, input: ProfileController.ProfileInput,
                                sha1: string -> string)
    requires k < |rows| && FindById(rows, rows[k].id) == Some(k)
    requires input.email.Some? && input.email.value != rows[k].email
    requires sha1(input.email.value) != sha1(rows[k].email)
    ensures var after := rows[k := ProfileController.UpdatedProfile(rows[k], input)];
      && !HasVerifiedEmail(after[k])
      && VerifyDecision(after, true, rows[k].id, sha1(rows[k].email), sha1)
         == Rejected(StatusForbidden, InvalidHashMessage)
  {
    var u := ProfileController.UpdatedProfile(rows[k], input);
    FindByIdAfterUpdate(rows, rows[k].id, k, u);
  }
}
