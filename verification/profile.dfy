/**
 * The profile controller: profile update (an email change clears verification), account
 * deletion behind the current password, avatar upload, and the preferences read as a merge
 * over defaults and written as a partial overwrite.
 *
 * `uid` is always the authenticated user of the request; the routes sit behind the auth
 * middleware, so that user exists.
 */
module ProfileController {

  import opened Common
  import opened Strings
  import opened Users
  import opened Sessions

  /** The JSON bodies of this controller. */
  datatype ProfilePayload =
    | ProfileUpdated(message: string, user: User)
    | AccountDeleted(message: string)
    | AvatarUpdated(message: string, user: User)
    | PreferencesRead(preferences: map<string, PrefValue>)
    | PreferencesSaved(preferences: map<string, PrefValue>, user: User)

  // ---------------------------------------------------------------------------
  // update

  /**
   * The validated profile attributes. Which attributes are validated, and how, is decided by
   * the form request class, which is not part of this model: `email` is the new email when
   * one was validated, `fields` the other validated attributes.
   */
  datatype ProfileInput = ProfileInput(email: Option<string>, fields: map<string, Option<string>>)

  /**
   * fill($validated), then "if the email is dirty, email_verified_at = null": the user after
   * the update. Only the validated attributes change, and verification is cleared exactly
   * when the email value changed.
   */
  function UpdatedProfile(u: User, input: ProfileInput): (r: User)
    ensures r.email == input.email.GetOr(u.email)
    ensures r.fields.Keys == u.fields.Keys + input.fields.Keys
    ensures forall f :: f in input.fields ==> r.fields[f] == input.fields[f]
    ensures forall f :: f in u.fields && f !in input.fields ==> r.fields[f] == u.fields[f]
    ensures r.email != u.email ==> r.emailVerifiedAt.None?
    ensures r.email == u.email ==> r.emailVerifiedAt == u.emailVerifiedAt
    ensures r.id == u.id && r.passwordHash == u.passwordHash
    ensures r.avatarPath == u.avatarPath && r.preferences == u.preferences
  {
    var filled := u.(email := input.email.GetOr(u.email), fields := u.fields + input.fields);
    if filled.email != u.email then filled.(emailVerifiedAt := None) else filled
  }

  /** Submitting the same profile form twice has the effect of submitting it once. */
  lemma UpdatedProfileIdempotent(u: User, input: ProfileInput)
    ensures UpdatedProfile(UpdatedProfile(u, input), input) == UpdatedProfile(u, input)
  {
    var once := UpdatedProfile(u, input);
    var twice := UpdatedProfile(once, input);
    assert twice.fields == once.fields;
  }

  /** update: fill, clear verification on an email change, save, reply. */
  method Update(users: UserTable, uid: nat, input: ProfileInput, expectsJson: bool)
    returns (r: Response<ProfilePayload>)
    requires users.Valid() && FindById(users.rows, uid).Some?
    modifies users
    ensures users.Valid()
    ensures var k := FindById(old(users.rows), uid).value;
      && users.rows == old(users.rows)[k := UpdatedProfile(old(users.rows)[k], input)]
      && r == if expectsJson then Json(StatusOk, ProfileUpdated("profile-updated", users.rows[k]))
              else RedirectToRoute("profile.edit", Some("profile-updated"))
  {
    var k := FindById(users.rows, uid).value;
    var u := users.rows[k];
    var filled := u.(email := input.email.GetOr(u.email), fields := u.fields + input.fields);
    if filled.email != u.email {
      filled := filled.(emailVerifiedAt := None);
    }
    users.Save(k, filled);
    if expectsJson {
      r := Json(StatusOk, ProfileUpdated("profile-updated", filled));
    } else {
      r := RedirectToRoute("profile.edit", Some("profile-updated"));
    }
  }

  // ---------------------------------------------------------------------------
  // destroy

  /**
   * The `required` and `current_password` rules on the password field, in that order:
   * None when they pass, otherwise the message of the rule that failed. `matches` is the
   * password hasher's check of a plain password against a stored hash.
   */
  function PasswordRuleFailure(password: Option<string>, hash: string, matches: (string, string) -> bool)
    : (r: Option<string>)
    ensures r.None? <==> password.Some? && Trim(password.value) != "" && matches(password.value, hash)
    ensures (password.None? || Trim(password.value) == "") ==> r == Some("The password field is required.")
  {
    if password.None? || Trim(password.value) == "" then Some("The password field is required.")
    else if !matches(password.value, hash) then Some("The password is incorrect.")
    else None
  }

  /**
   * destroy: unless the password is the current one, fail validation and change nothing;
   * otherwise log out, delete the user, invalidate the session and regenerate the token.
   */
  method Destroy(users: UserTable, session: Session, uid: nat, password: Option<string>,
                 matches: (string, string) -> bool, expectsJson: bool)
    returns (r: Response<ProfilePayload>)
    requires users.Valid() && FindById(users.rows, uid).Some? && session.Valid()
    modifies users, session
    ensures users.Valid() && session.Valid()
    ensures var k := FindById(old(users.rows), uid).value;
      var failure := PasswordRuleFailure(password, old(users.rows)[k].passwordHash, matches);
      if failure.Some? then
        && r == Error(StatusUnprocessable, failure.value)
        && users.rows == old(users.rows)
        && session.user == old(session.user) && session.id == old(session.id)
        && session.csrfToken == old(session.csrfToken) && session.steps == old(session.steps)
        && session.attributes == old(session.attributes)
      else
        && users.rows == RemoveAt(old(users.rows), k)
        && FindById(users.rows, uid).None?
        && session.user.None? && session.attributes == map[]
        && session.id != old(session.id) && session.csrfToken.Some? && session.csrfToken != old(session.csrfToken)
        && session.steps == old(session.steps) + [LogoutStep, InvalidateStep, RegenerateTokenStep]
        && r == if expectsJson then Json(StatusOk, AccountDeleted("account-deleted")) else Redirect("/")
  {
    var k := FindById(users.rows, uid).value;
    var failure := PasswordRuleFailure(password, users.rows[k].passwordHash, matches);
    if failure.Some? {
      return Error(StatusUnprocessable, failure.value);
    }
    RemoveAccount(users, session, uid, k);
    if expectsJson {
      r := Json(StatusOk, AccountDeleted("account-deleted"));
    } else {
      r := Redirect("/");
    }
  }

  /** The steps of destroy once the password passed: logout, delete, invalidate, new token. */
  method RemoveAccount(users: UserTable, session: Session, uid: nat, k: nat)
    requires users.Valid() && session.Valid() && FindById(users.rows, uid) == Some(k)
    modifies users, session
    ensures users.Valid() && session.Valid()
    ensures users.rows == RemoveAt(old(users.rows), k)
    ensures FindById(users.rows, uid).None?
    ensures session.user.None? && session.attributes == map[]
    ensures session.id != old(session.id) && session.csrfToken.Some? && session.csrfToken != old(session.csrfToken)
    ensures session.steps == old(session.steps) + [LogoutStep, InvalidateStep, RegenerateTokenStep]
  {
    session.Logout();
    RemoveFound(users.rows, uid, k);
    users.Delete(k);
    session.Invalidate();
    session.RegenerateToken();
  }

  // ---------------------------------------------------------------------------
  // uploadAvatar

  /**
   * An uploaded file as the validator sees it: whether the upload succeeded, the extension
   * guessed from its MIME type, and its size.
   */
  datatype Upload = Upload(isValidFile: bool, guessedExtension: string, sizeBytes: nat)

  /** The `mimes:jpeg,png,jpg,gif,webp` list; every one of them also passes the `image` rule. */
  const AvatarExtensions: set<string> := {"jpeg", "png", "jpg", "gif", "webp"}

  /** `max:2048` on a file is in kilobytes of 1024 bytes. */
  const AvatarMaxKilobytes: nat := 2048

  /** The rules on `avatar`: required, file, image, mimes:jpeg,png,jpg,gif,webp, max:2048. */
  predicate AvatarAccepted(upload: Option<Upload>) {
    && upload.Some?
    && upload.value.isValidFile
    && upload.value.guessedExtension in AvatarExtensions
    && upload.value.sizeBytes <= AvatarMaxKilobytes * 1024
  }

  /** The public storage disk: the paths of the stored files. */
  class PublicDisk {
    var files: set<string>

    constructor (initial: set<string>)
      ensures files == initial
    {
      files := initial;
    }

    /** Storage::delete; `fails` stands for a storage driver that throws. */
    method Delete(path: string, fails: bool)
      modifies this
      ensures files == if fails then old(files) else old(files) - {path}
    {
      if !fails {
        files := files - {path};
      }
    }

    /**
     * store('avatars', 'public'): the file is stored under avatars/ with a generated name and
     * its path returned; `fails` stands for a write the driver refuses, when store() returns
     * false (None here) and no file is added.
     */
    method Store(generatedName: string, fails: bool) returns (path: Option<string>)
      modifies this
      ensures fails ==> path.None? && files == old(files)
      ensures !fails ==> path == Some("avatars/" + generatedName) && files == old(files) + {path.value}
    {
      if fails {
        return None;
      }
      path := Some("avatars/" + generatedName);
      files := files + {path.value};
    }
  }

  /**
   * The avatar_path the controller saves for what store() returned. A false return is saved
   * as it is; the query builder binds PHP's false as the integer 0, so the row reads back "0".
   */
  function SavedAvatarPath(stored: Option<string>): Option<string> {
    if stored.Some? then stored else Some("0")
  }

  /**
   * uploadAvatar: after validation, try to delete the previous avatar (a throwing delete is
   * swallowed), store the new file and point avatar_path at it. `generatedName` is the random
   * name the storage layer picks; `deleteFails` whether deleting the old file throws;
   * `storeFails` whether the write of the new file fails.
   */
  method UploadAvatar(users: UserTable, disk: PublicDisk, uid: nat, upload: Option<Upload>,
                      generatedName: string, deleteFails: bool, storeFails: bool)
    returns (r: Response<ProfilePayload>)
    requires users.Valid() && FindById(users.rows, uid).Some?
    modifies users, disk
    ensures users.Valid()
    ensures var k := FindById(old(users.rows), uid).value;
      var u := old(users.rows)[k];
      var path := "avatars/" + generatedName;
      var kept := if !PhpEmpty(u.avatarPath) && !deleteFails
                  then old(disk.files) - {u.avatarPath.value} else old(disk.files);
      if !AvatarAccepted(upload) then
        && r.Error? && r.status == StatusUnprocessable
        && users.rows == old(users.rows) && disk.files == old(disk.files)
      else
        && users.rows == old(users.rows)[k := u.(avatarPath := if storeFails then Some("0") else Some(path))]
        && disk.files == (if storeFails then kept else kept + {path})
        && r == Json(StatusOk, AvatarUpdated("avatar-updated", users.rows[k]))
  {
    if !AvatarAccepted(upload) {
      return Error(StatusUnprocessable, "The avatar field is invalid.");
    }
    var k := FindById(users.rows, uid).value;
    var u := users.rows[k];
    if !PhpEmpty(u.avatarPath) {
      disk.Delete(u.avatarPath.value, deleteFails);
    }
    var stored := disk.Store(generatedName, storeFails);
    users.Save(k, u.(avatarPath := SavedAvatarPath(stored)));
    r := Json(StatusOk, AvatarUpdated("avatar-updated", users.rows[k]));
  }

  // ---------------------------------------------------------------------------
  // getPreferences / updatePreferences

  const PreferenceKeys: set<string> := {"theme", "email_notifications", "push_notifications"}

  const DefaultPreferences: map<string, PrefValue> :=
    map["theme" := PStr("light"), "email_notifications" := PBool(true), "push_notifications" := PBool(false)]

  /** `$user->preferences ?? []`, then anything that is not an array counts as []. */
  function StoredEntries(p: StoredPrefs): map<string, PrefValue> {
    if p.Assoc? then p.entries else map[]
  }

  /**
   * getPreferences: array_merge($defaults, $prefs). Every default key is present; a stored
   * value wins over the default; stored keys without a default are kept.
   */
  function MergedPreferences(p: StoredPrefs): (m: map<string, PrefValue>)
    ensures m.Keys == PreferenceKeys + StoredEntries(p).Keys
    ensures forall k :: k in StoredEntries(p) ==> m[k] == StoredEntries(p)[k]
    ensures forall k :: k in PreferenceKeys && k !in StoredEntries(p) ==> m[k] == DefaultPreferences[k]
  {
    DefaultPreferences + StoredEntries(p)
  }

  /** getPreferences' reply. */
  function GetPreferences(u: User): (r: Response<ProfilePayload>)
    ensures r.Json? && r.status == StatusOk && r.body.PreferencesRead?
    ensures r.body.preferences == MergedPreferences(u.preferences)
    ensures PreferenceKeys <= r.body.preferences.Keys
  {
    Json(StatusOk, PreferencesRead(MergedPreferences(u.preferences)))
  }

  /** A string the validator skips: after trimming it is empty. */
  predicate BlankString(v: PrefValue) {
    v.PStr? && Trim(v.s) == ""
  }

  /** The `in:light,dark` rule. */
  predicate ValidTheme(v: PrefValue) {
    v == PStr("light") || v == PStr("dark")
  }

  /** The `boolean` rule: true, false, 0, 1, "0" or "1". */
  predicate ValidBoolean(v: PrefValue) {
    v in {PBool(true), PBool(false), PInt(0), PInt(1), PStr("0"), PStr("1")}
  }

  /** Whether a present preference passes its rule (a blank string is not checked at all). */
  predicate PreferencePasses(key: string, v: PrefValue) {
    BlankString(v) || (if key == "theme" then ValidTheme(v) else ValidBoolean(v))
  }

  /** The message of the rule a present preference fails, or None when it passes. */
  function RuleMessage(key: string, v: PrefValue): Option<string> {
    if PreferencePasses(key, v) then None
    else if key == "theme" then Some("The selected theme is invalid.")
    else if key == "email_notifications" then Some("The email notifications field must be true or false.")
    else Some("The push notifications field must be true or false.")
  }

  /** The validated keys in the order of the rules. */
  const RuleOrder: seq<string> := ["theme", "email_notifications", "push_notifications"]

  /** The messages of the failing rules over keys, in rule order. */
  function FailureMessages(input: map<string, PrefValue>, keys: seq<string>): (msgs: seq<string>)
    ensures |msgs| <= |keys|
    ensures msgs == [] <==> forall k :: k in keys && k in input ==> PreferencePasses(k, input[k])
    decreases |keys|
  {
    if keys == [] then []
    else
      var rest := FailureMessages(input, keys[1..]);
      assert forall k :: k in keys <==> k == keys[0] || k in keys[1..];
      if keys[0] in input && RuleMessage(keys[0], input[keys[0]]).Some? then
        [RuleMessage(keys[0], input[keys[0]]).value] + rest
      else
        rest
  }

  /**
   * The message of a ValidationException: the first error, followed by "(and N more
   * error[s])" when there are others.
   */
  function Summary(msgs: seq<string>): (m: string)
    requires 1 <= |msgs| <= 3
    ensures StartsWith(m, msgs[0])
    ensures |msgs| == 1 ==> m == msgs[0]
    ensures |msgs| > 1 ==> |m| > |msgs[0]|
  {
    msgs[0] + (if |msgs| == 1 then "" else if |msgs| == 2 then " (and 1 more error)" else " (and 2 more errors)")
  }

  /**
   * $request->validate([...]) with `sometimes` on each key: validation passes when every
   * present preference passes its rule, and the validated data is the request restricted to
   * the three preference keys; otherwise the message is the summary of the failed rules.
   */
  function ValidatedPreferences(input: map<string, PrefValue>): (r: Result<map<string, PrefValue>, string>)
    ensures r.Success? <==> forall k :: k in PreferenceKeys && k in input ==> PreferencePasses(k, input[k])
    ensures r.Success? ==> r.value.Keys == input.Keys * PreferenceKeys
    ensures r.Success? ==> forall k :: k in r.value ==> r.value[k] == input[k]
    ensures r.Failure? ==> var msgs := FailureMessages(input, RuleOrder);
      1 <= |msgs| <= 3 && r.error == Summary(msgs)
  {
    var msgs := FailureMessages(input, RuleOrder);
    assert forall k :: k in PreferenceKeys <==> k in RuleOrder;
    if msgs == [] then
      Success(map k | k in input && k in PreferenceKeys :: input[k])
    else
      Failure(Summary(msgs))
  }

  /** An invalid theme is always the first error named: the reply starts with its message. */
  lemma BadThemeReportedFirst(input: map<string, PrefValue>)
    requires "theme" in input && !PreferencePasses("theme", input["theme"])
    ensures ValidatedPreferences(input).Failure?
    ensures StartsWith(ValidatedPreferences(input).error, "The selected theme is invalid.")
  {
  }

  /**
   * The stored preferences after updatePreferences: array_merge($prefs, $data). Only the
   * submitted keys are overwritten, the others are kept, and no default is written.
   */
  function AppliedPreferences(p: StoredPrefs, data: map<string, PrefValue>): (q: StoredPrefs)
    ensures q.Assoc?
    ensures q.entries.Keys == StoredEntries(p).Keys + data.Keys
    ensures forall k :: k in data ==> q.entries[k] == data[k]
    ensures forall k :: k in StoredEntries(p) && k !in data ==> q.entries[k] == StoredEntries(p)[k]
  {
    Assoc(StoredEntries(p) + data)
  }

  /** Applying the same preference update twice equals applying it once. */
  lemma AppliedPreferencesIdempotent(p: StoredPrefs, data: map<string, PrefValue>)
    ensures AppliedPreferences(AppliedPreferences(p, data), data) == AppliedPreferences(p, data)
  {
    var once := AppliedPreferences(p, data);
    var twice := AppliedPreferences(once, data);
    assert twice.entries == once.entries;
  }

  /** On a user without stored preferences the update stores exactly the submitted keys. */
  lemma AppliedPreferencesWritesNoDefaults(data: map<string, PrefValue>)
    ensures AppliedPreferences(NoPrefs, data) == Assoc(data)
  {
    assert AppliedPreferences(NoPrefs, data).entries == data;
  }

  /**
   * What getPreferences reads after an update: the submitted value for a submitted key,
   * and what it read before for every other key.
   */
  lemma {:induction false} MergedAfterUpdate(p: StoredPrefs, data: map<string, PrefValue>)
    ensures MergedPreferences(AppliedPreferences(p, data)).Keys == MergedPreferences(p).Keys + data.Keys
    ensures forall k :: k in data ==> MergedPreferences(AppliedPreferences(p, data))[k] == data[k]
    ensures forall k :: k in MergedPreferences(p) && k !in data ==>
      MergedPreferences(AppliedPreferences(p, data))[k] == MergedPreferences(p)[k]
  {
    var q := AppliedPreferences(p, data);
    assert StoredEntries(q) == q.entries;
  }

  /** updatePreferences: validate, merge the validated keys over what is stored, save, reply. */
  method UpdatePreferences(users: UserTable, uid: nat, input: map<string, PrefValue>)
    returns (r: Response<ProfilePayload>)
    requires users.Valid() && FindById(users.rows, uid).Some?
    modifies users
    ensures users.Valid()
    ensures var k := FindById(old(users.rows), uid).value;
      var u := old(users.rows)[k];
      match ValidatedPreferences(input)
      case Failure(msg) => r == Error(StatusUnprocessable, msg) && users.rows == old(users.rows)
      case Success(data) =>
        var q := AppliedPreferences(u.preferences, data);
        && users.rows == old(users.rows)[k := u.(preferences := q)]
        && r == Json(StatusOk, PreferencesSaved(q.entries, users.rows[k]))
  {
    var validated := ValidatedPreferences(input);
    if validated.Failure? {
      return Error(StatusUnprocessable, validated.error);
    }
    var k := FindById(users.rows, uid).value;
    var u := users.rows[k];
    var prefs := StoredEntries(u.preferences);
    var merged := prefs + validated.value;
    users.Save(k, u.(preferences := Assoc(merged)));
    r := Json(StatusOk, PreferencesSaved(merged, users.rows[k]));
  }
}
