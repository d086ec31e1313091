# A verified model of an account and profile web application

The application is a single-page frontend (React, TypeScript) on a Laravel backend. Users
register, log in through the session guard, verify their email through a signed link, edit
their profile, upload an avatar, keep preferences and read notifications. This project
models the logic in the middle of that, and proves what that logic promises.

- **The identicon.** A 32-bit FNV-1a hash of the user's name or email picks a hue and seeds
  a xorshift32 generator. Fifteen bits from the generator fill a 5×5 grid that is mirrored
  left to right (module `Identicon`).
- **The profile controller.** An email change clears verification. Deleting the account
  needs the current password. The avatar is replaced. Preferences are read as a merge over
  defaults and written as a partial overwrite (`ProfileController`, over the `users` table
  in `Users`).
- **The notification controller.** The list query returns the user's notifications newest
  first, optionally only unread ones, up to a limit, with a global unread count. There is
  also mark-one-read and mark-all-read (`NotificationController`).
- **Login and logout.** A user with an unverified email is not allowed to stay logged in
  (`AuthenticatedSessionController`, over the session model in `Sessions`).
- **Email verification.** The signed link is checked in order: signature, user, sha1 of
  the current email. Following it twice is harmless (`PublicVerifyEmailController`).
  Resending the link never tells whether an account exists
  (`PublicResendVerificationController`).
- **The frontend base URL.** It is chosen from `FRONTEND_ORIGINS` and `APP_URL`
  (`FrontendOrigins`, shared by the verification controller and the password-reset
  route). The reset link is built from it with PHP's urlencode (`PasswordResetRoute`,
  `UrlEncoding`).
- **On the client:**
  - the authentication state and its localStorage mirror (`AuthContext`);
  - the guard for pages that need a verified account (`VerifiedRoute`);
  - the HTTP helper, covering URLs, headers, body encoding and JSON reading (`Api`, over
    the JavaScript values in `Js`).

Code that works by changing state is modelled with classes:
- the `users` and notification tables;
- the session and the event log;
- the storage disk;
- the client's auth provider, API module state and localStorage.

Each method states the whole new state. Decisions, link building and queries are functions,
and lemmas relate them.

Some behaviour lies outside the model, so it is passed in as a parameter:
- the URL signature check, sha1 and the password hash check;
- the email-address rule and the login credential check;
- JSON.parse, JSON.stringify and fetch;
- the clock and the random names of stored files.

Strings are sequences of characters. For PHP byte strings, a character stands for one byte.

## Model

| member | source | states |
|---|---|---|
| Strings.TrimStart | backend/routes/web.php:11 | the left half of trim: what is removed is a prefix made only of listed characters, and the result does not start with one |
| Strings.TrimEnd | backend/routes/web.php:20 | rtrim with a character list: a prefix of the input; every removed character is listed; the result does not end with a listed character |
| Strings.Trim | backend/routes/web.php:11 | trim: neither end of the result is PHP whitespace (TrimCutsWhitespace states what is cut) |
| Strings.TrimCutsWhitespace | backend/routes/web.php:11 | trim leaves the input with a run of PHP whitespace cut from each end: the result starts at some index a, and everything before a and after the result is whitespace |
| Strings.Explode | backend/routes/web.php:11 | explode yields at least one piece and no piece contains the separator |
| Strings.ImplodeExplode | backend/routes/web.php:11 | joining the pieces of explode with the separator gives the input back |
| Strings.ExplodeImplode | backend/routes/web.php:11 | exploding a join of separator-free pieces gives the pieces back |
| Strings.ExplodeSeparatorFree | backend/routes/web.php:11 | a string without the separator explodes into itself alone |
| Identicon.CeilHalf | frontend/src/components/ui/identicon.tsx:28 | Math.ceil(n / 2): n <= 2r <= n + 1 |
| Identicon.FnvFromSnoc | frontend/src/components/ui/identicon.tsx:5-8 | one more code unit is one more xor-then-multiply step on the running hash |
| Identicon.FnvFromAppend | frontend/src/components/ui/identicon.tsx:5-8 | hashing a concatenation is hashing the second part from the state the first part leaves |
| Identicon.HashString | frontend/src/components/ui/identicon.tsx:3-10 | the loop computes 32-bit FNV-1a over the UTF-16 code units (always in [0, 2^32)); the empty string hashes to 2166136261 |
| Identicon.HslFromHash | frontend/src/components/ui/identicon.tsx:12-17 | hue is h mod 360, so it lies in [0, 359]; saturation 65, lightness 50 |
| Identicon.PatternBits | frontend/src/components/ui/identicon.tsx:25-33 | exactly 5 · ceil(5/2) = 15 bits; bit i is the low bit of the (i+1)-th xorshift32 state from the hash |
| Identicon.GenerateBits | frontend/src/components/ui/identicon.tsx:27-33 | the generator loop produces exactly PatternBits of the hash |
| Identicon.XorshiftZero | frontend/src/components/ui/identicon.tsx:29-31 | one xorshift32 step gives 0 exactly when the state is 0 |
| Identicon.XorshiftStateZero | frontend/src/components/ui/identicon.tsx:27-33 | every generator state is 0 exactly when the seed is 0 |
| Identicon.ZeroHashIsBlank | frontend/src/components/ui/identicon.tsx:27-33 | hash 0 yields an all-blank pattern |
| Identicon.SourceColumn | frontend/src/components/ui/identicon.tsx:36-42 | the pattern column a grid column is drawn from is below 3, and is the column or its mirror |
| Identicon.FilledIsSymmetric | frontend/src/components/ui/identicon.tsx:35-45 | column x is filled exactly when column 4 - x is |
| Identicon.LayoutCells | frontend/src/components/ui/identicon.tsx:34-48 | the loop draws exactly the filled cells of the grid, none twice, so the middle column is drawn once |
| Identicon.LayoutIsSymmetric | frontend/src/components/ui/identicon.tsx:38-45 | the drawn cells are closed under the left-right mirror |
| Identicon.Render | frontend/src/components/ui/identicon.tsx:19-48 | the colour is HslFromHash of the FNV-1a hash of the value and the cells are exactly the filled cells of that hash's pattern, none twice; a missing value is hashed as "" |
| Users.FindById | backend/app/Http/Controllers/Auth/PublicVerifyEmailController.php:19 | findOrFail: the first row with the id, or none exactly when no row has it |
| Users.FindByEmail | backend/app/Http/Controllers/Auth/PublicResendVerificationController.php:17 | where('email')->first(): the first row with the email, or none exactly when no row has it |
| Users.RemoveAt | backend/app/Http/Controllers/ProfileController.php:62 | delete: the rows before k are kept in place and the rows after it move up by one |
| Users.RemoveFound | backend/app/Http/Controllers/ProfileController.php:62 | deleting the user leaves no row with its id, keeps every other row and keeps ids unique |
| Users.UserTable.Save | backend/app/Http/Controllers/ProfileController.php:36 | save() replaces the user's row and keeps ids unique |
| Users.UserTable.Delete | backend/app/Http/Controllers/ProfileController.php:62 | delete() removes the row and keeps ids unique |
| Sessions.GuardUserSnoc | backend/app/Http/Controllers/Auth/AuthenticatedSessionController.php:27-33 | a login or a logout decides the guard's user; invalidate and the regenerations keep it |
| Sessions.NoUserAfterLogout | backend/app/Http/Controllers/Auth/AuthenticatedSessionController.php:31-33 | after a logout no user is held until the next login, whatever session steps follow |
| Sessions.Session.Login | backend/app/Http/Controllers/Auth/AuthenticatedSessionController.php:27 | the guard holds the user and the session migrates to a new id; token and attributes unchanged |
| Sessions.Session.Logout | backend/app/Http/Controllers/Auth/AuthenticatedSessionController.php:31 | the guard holds no user; id, token and attributes unchanged |
| Sessions.Session.Invalidate | backend/app/Http/Controllers/Auth/AuthenticatedSessionController.php:32 | attributes flushed, the CSRF token with them, and a new session id; the guard's user unchanged |
| Sessions.Session.RegenerateToken | backend/app/Http/Controllers/Auth/AuthenticatedSessionController.php:33 | a CSRF token never issued before, so different from the old one (or present again after a flush); everything else unchanged |
| Sessions.Session.Regenerate | backend/app/Http/Controllers/Auth/AuthenticatedSessionController.php:44 | a new session id and a CSRF token never issued before; user and attributes kept |
| Sessions.EventLog.Dispatch | backend/app/Http/Controllers/Auth/PublicVerifyEmailController.php:27 | the event is appended to what was dispatched |
| ProfileController.UpdatedProfile | backend/app/Http/Controllers/ProfileController.php:30-34 | only validated attributes change; verification is cleared exactly when the email value changed and kept otherwise |
| ProfileController.UpdatedProfileIdempotent | backend/app/Http/Controllers/ProfileController.php:30-36 | submitting the same profile form twice equals submitting it once |
| ProfileController.Update | backend/app/Http/Controllers/ProfileController.php:28-46 | the row becomes UpdatedProfile of itself; JSON "profile-updated" with the user, or a redirect to profile.edit with that status |
| ProfileController.PasswordRuleFailure | backend/app/Http/Controllers/ProfileController.php:53-55 | the password rules pass exactly when the password is present, not blank and the current one; a missing or blank one fails "required" |
| ProfileController.RemoveAccount | backend/app/Http/Controllers/ProfileController.php:60-65 | logout, delete, invalidate and regenerate the token, in that order: no row with the id remains, every other row is kept, the guard holds no user, attributes are flushed, and the session id and token are new |
| ProfileController.Destroy | backend/app/Http/Controllers/ProfileController.php:51-72 | a failed password check is a 422 that changes nothing; otherwise logout, delete, invalidate, regenerate token (in that order), then "account-deleted" or a redirect to / |
| ProfileController.PublicDisk.Delete | backend/app/Http/Controllers/ProfileController.php:87 | the file is removed, or nothing changes when the driver throws |
| ProfileController.PublicDisk.Store | backend/app/Http/Controllers/ProfileController.php:90 | the file is stored under avatars/ and its path returned; a failed write returns false (None) and adds no file |
| ProfileController.UploadAvatar | backend/app/Http/Controllers/ProfileController.php:77-98 | a missing, non-image, wrong-type or over-2048-KB upload is a 422 that changes nothing; otherwise the old avatar is deleted (errors swallowed) and avatar_path becomes the new path, or "0" when the write failed (false is bound as the integer 0 and read back by fresh() as "0"), after the old file is already gone; the reply is 200 either way |
| ProfileController.MergedPreferences | backend/app/Http/Controllers/ProfileController.php:105-112 | the three default keys are always present; stored values (StoredEntries: null or non-array preferences count as empty) override the defaults light/true/false; stored keys without a default are kept |
| ProfileController.GetPreferences | backend/app/Http/Controllers/ProfileController.php:103-114 | a 200 reply whose preferences are MergedPreferences of what is stored, so theme, email_notifications and push_notifications are always present |
| ProfileController.ValidatedPreferences | backend/app/Http/Controllers/ProfileController.php:121-125 | passes iff each present key passes its rule (theme in light/dark, flags boolean, blank strings skipped); the data is the request restricted to the three keys; a failure carries the Summary of the failed rules' messages |
| ProfileController.FailureMessages | backend/app/Http/Controllers/ProfileController.php:121-125 | the messages of the failing present keys, in rule order, at most one per key: none exactly when every present key passes |
| ProfileController.Summary | backend/app/Http/Controllers/ProfileController.php:121 | the validation message starts with the first error and is exactly it when there is one; further errors add "(and N more error[s])" |
| ProfileController.BadThemeReportedFirst | backend/app/Http/Controllers/ProfileController.php:121-122 | an invalid theme fails validation with a message starting "The selected theme is invalid." |
| ProfileController.AppliedPreferences | backend/app/Http/Controllers/ProfileController.php:128-131 | only the submitted keys are overwritten, the others kept, no default written |
| ProfileController.AppliedPreferencesIdempotent | backend/app/Http/Controllers/ProfileController.php:128-131 | applying the same update twice equals applying it once |
| ProfileController.AppliedPreferencesWritesNoDefaults | backend/app/Http/Controllers/ProfileController.php:128-131 | with nothing stored, exactly the submitted keys are stored |
| ProfileController.MergedAfterUpdate | backend/app/Http/Controllers/ProfileController.php:105-131 | after an update the read returns the submitted value for submitted keys and the earlier value for the rest |
| ProfileController.UpdatePreferences | backend/app/Http/Controllers/ProfileController.php:119-138 | invalid input is a 422 that changes nothing; otherwise the stored preferences become AppliedPreferences and are returned with the user |
| NotificationController.Select | backend/app/Http/Controllers/NotificationController.php:16-19 | exactly the user's notifications (only unread ones when asked), a sub-multiset of the rows |
| NotificationController.Insert | backend/app/Http/Controllers/NotificationController.php:16 | inserting into a newest-first list keeps it newest first and adds exactly that element |
| NotificationController.SortNewestFirst | backend/app/Http/Controllers/NotificationController.php:16 | orderByDesc('created_at'): non-increasing created_at, a permutation of the input |
| NotificationController.Take | backend/app/Http/Controllers/NotificationController.php:20 | limit(): a prefix of length min(limit, size); a negative limit is ignored |
| NotificationController.PageFacts | backend/app/Http/Controllers/NotificationController.php:16-20 | sorting then taking the limit gives exactly min(limit, size) items, newest first, drawn from the selection, all of it when under the limit, and nothing left out is newer than an item taken |
| NotificationController.PrefixIsNewest | backend/app/Http/Controllers/NotificationController.php:16-20 | what a prefix of a newest-first list leaves out is no newer than what it keeps |
| NotificationController.Index | backend/app/Http/Controllers/NotificationController.php:10-26 | the query's limit (Limit: default 20) and unread flag (OnlyUnread: filter_var boolean, default false) applied: exactly min(limit, selected) items, all the user's own, unread-only when asked, newest first, the newest of the selection (nothing left out is newer), all of it under the limit or with a negative limit; unread_count over all the user's unread notifications |
| NotificationController.DefaultPageSize | backend/app/Http/Controllers/NotificationController.php:13 | without a limit in the query the page holds 20 notifications, or all selected when fewer |
| NotificationController.UnreadFlagsAccepted | backend/app/Http/Controllers/NotificationController.php:14 | "1", "true" and "ON" ask for unread notifications only |
| NotificationController.UnreadFlagsRejected | backend/app/Http/Controllers/NotificationController.php:14 | a missing unread flag, "0", "false" and "" keep read notifications in the list |
| NotificationController.UnreadCountIndependent | backend/app/Http/Controllers/NotificationController.php:21 | unread_count does not depend on limit or the unread filter |
| NotificationController.FindOwned | backend/app/Http/Controllers/NotificationController.php:32 | the notification with the id among the user's own, or none exactly when the user has no such notification |
| NotificationController.MarkedRead | backend/app/Http/Controllers/NotificationController.php:36-38 | only read_at changes; the result is read, an existing read_at is kept and an unread one gets now |
| NotificationController.MarkedReadIdempotent | backend/app/Http/Controllers/NotificationController.php:36-38 | marking read twice equals marking read once |
| NotificationController.AllMarkedRead | backend/app/Http/Controllers/NotificationController.php:44 | only read_at changes; every notification of the user is read, the unread ones at now; other users' notifications and already read ones are unchanged |
| NotificationController.NoUnreadAfterMarkAll | backend/app/Http/Controllers/NotificationController.php:44 | after mark-all-read the user's unread count is 0 |
| NotificationController.MarkOneLowersUnreadCount | backend/app/Http/Controllers/NotificationController.php:36-38 | marking one unread notification read lowers the unread count by exactly one |
| NotificationController.NotificationTable.MarkRead | backend/app/Http/Controllers/NotificationController.php:29-40 | an unknown or foreign id is a 404 "Not found" that changes nothing; otherwise only that notification is marked read and the reply is "ok" |
| NotificationController.NotificationTable.MarkAllRead | backend/app/Http/Controllers/NotificationController.php:42-46 | the loop leaves the table as AllMarkedRead and replies "ok" |
| FrontendOrigins.FilterFromKeeps | backend/routes/web.php:11 | array_filter keeps exactly the truthy pieces (not "" or "0"), each under its original key, in key order |
| FrontendOrigins.TrimmedPieces | backend/routes/web.php:11 | one trimmed piece per piece of explode(',') |
| FrontendOrigins.AtKeyZero | backend/routes/web.php:18 | $origins[0] ?? null: present exactly when an entry has key 0 |
| FrontendOrigins.FirstDevOriginIsFirst | backend/routes/web.php:12-17 | the preferred origin is absent iff no origin names a local host and a dev port, otherwise it is the first that does |
| FrontendOrigins.PreferredOrigin | backend/routes/web.php:12-17 | the foreach with break finds the first dev origin |
| FrontendOrigins.SelectBase | backend/routes/web.php:11-18 | preferred origin, else key 0, else APP_URL (default "/"); the same code is at PublicVerifyEmailController.php:31-38 |
| FrontendOrigins.JoinPath | backend/routes/web.php:20 | the result ends with the path, and what comes before it is the base without its trailing slashes, so it never ends in a slash |
| FrontendOrigins.BasePrefersDevOrigin | backend/routes/web.php:12-18 | when a dev origin is configured the base is a dev origin taken from the configured list |
| FrontendOrigins.BaseWithoutDevOrigin | backend/routes/web.php:18 | without a dev origin the base is the first piece if truthy, else APP_URL, so a blank first entry forces APP_URL even when other origins exist |
| FrontendOrigins.BaseWhenOriginsUnset | backend/routes/web.php:11-18 | with FRONTEND_ORIGINS unset the base is APP_URL, or "/" |
| UrlEncoding.EncodeChar | backend/routes/web.php:20 | the encoding of one byte uses only letters, digits, "-_.", "+" and "%" |
| UrlEncoding.UrlEncode | backend/routes/web.php:20 | urlencode uses only letters, digits, "-_.", "+" and "%", and is 1 to 3 times as long |
| UrlEncoding.EncodedHasNoDelimiters | backend/routes/web.php:20-22 | an encoded value holds no "/", "?", "&", "#", "=" or space |
| UrlEncoding.UrlDecodeEncode | backend/routes/web.php:20-22 | urldecode(urlencode(s)) == s for every byte string |
| PasswordResetRoute.ResetRedirect | backend/routes/web.php:7-26 | the closure redirects away to ResetLink of the selected base |
| PasswordResetRoute.ResetLinkShape | backend/routes/web.php:20-23 | the link is rtrim(base, '/'), then "/reset-password/", then the encoded token, then the email query |
| PasswordResetRoute.LinkParts | backend/routes/web.php:20-23 | read back from the link: the prefix, then the token segment, which holds no "/" or "?" and decodes to the token; "?email=" and the encoded email follow iff the email is non-empty, and decode to the email |
| PasswordResetRoute.TokenSegment | backend/routes/web.php:20 | the encoded token occupies its own segment, free of "/" and "?", and decodes to the token, whatever surrounds it |
| PasswordResetRoute.QuerySegment | backend/routes/web.php:21-23 | the query is empty exactly for an empty email; otherwise it is "?email=" followed by text that decodes to the email |
| PasswordResetRoute.EmptyEmailLeavesNoQuery | backend/routes/web.php:21-23 | a null, "" or "0" email adds nothing |
| PublicVerifyEmailController.VerifyDecision | backend/app/Http/Controllers/Auth/PublicVerifyEmailController.php:15-28 | a bad signature is a 403 before any lookup; an unknown id is a 404; a found user whose hash does not match is a 403 "Invalid verification hash"; the link is accepted iff the hash equals sha1 of the current email; it verifies anew iff the user was not verified |
| PublicVerifyEmailController.RowsAfter | backend/app/Http/Controllers/Auth/PublicVerifyEmailController.php:25-28 | only a newly verified row changes, and only its verification time |
| PublicVerifyEmailController.MarkVerified | backend/app/Http/Controllers/Auth/PublicVerifyEmailController.php:25-28 | the row is marked verified and Verified fired exactly when it was not verified; otherwise nothing changes |
| PublicVerifyEmailController.AcceptedReply | backend/app/Http/Controllers/Auth/PublicVerifyEmailController.php:31-45 | "Email verified" for a JSON request, else a redirect to the login page on the selected frontend base |
| PublicVerifyEmailController.Invoke | backend/app/Http/Controllers/Auth/PublicVerifyEmailController.php:13-46 | rejections change nothing and reply with their status; acceptance marks verified and fires Verified only when not verified yet, then replies "Email verified" or redirects to rtrim(base, '/') + "/login?verified=1" |
| PublicVerifyEmailController.AcceptedLeavesVerified | backend/app/Http/Controllers/Auth/PublicVerifyEmailController.php:25-28 | after an accepted link the user is verified |
| PublicVerifyEmailController.SecondClickChangesNothing | backend/app/Http/Controllers/Auth/PublicVerifyEmailController.php:19-28 | following a valid link again is accepted, verifies nothing new and leaves the table as it was |
| PublicVerifyEmailController.FindByIdAfterUpdate | backend/app/Http/Controllers/Auth/PublicVerifyEmailController.php:19 | saving the found user under the same id keeps it the row findOrFail finds |
| PublicVerifyEmailController.EmailChangeVoidsOldLink | backend/app/Http/Controllers/Auth/PublicVerifyEmailController.php:21-23 | after an email change (ProfileController.php:32-34) the user is unverified and a link made for the old email is rejected with 403 |
| PublicResendVerificationController.EmailRuleFailure | backend/app/Http/Controllers/Auth/PublicResendVerificationController.php:13-15 | the rules pass iff the email is present, not blank and well-formed; a missing or blank one fails "required" first |
| PublicResendVerificationController.ResendDecision | backend/app/Http/Controllers/Auth/PublicResendVerificationController.php:13-21 | the request is refused exactly when the email rules fail, with the first failing rule's message, before any lookup |
| PublicResendVerificationController.ResendNotifiesFirstUnverified | backend/app/Http/Controllers/Auth/PublicResendVerificationController.php:17-21 | after validation a mail goes to the first user with the email when that user is unverified, and to nobody when there is no such user or the first is verified |
| PublicResendVerificationController.ReplyIndependentOfAccounts | backend/app/Http/Controllers/Auth/PublicResendVerificationController.php:23 | the reply is the same whatever the accounts are: absent, verified or unverified |
| PublicResendVerificationController.Store | backend/app/Http/Controllers/Auth/PublicResendVerificationController.php:11-24 | replies as ResendDecision says, dispatches only the decided mail and never writes the users table |
| AuthenticatedSessionController.LoginSteps | backend/app/Http/Controllers/Auth/AuthenticatedSessionController.php:27-44 | authentication comes first; a logout follows iff the email is not verified |
| AuthenticatedSessionController.LoginKeepsOnlyVerified | backend/app/Http/Controllers/Auth/AuthenticatedSessionController.php:27-44 | after store the guard holds the user iff the user's email is verified |
| AuthenticatedSessionController.LogoutKeepsNoUser | backend/app/Http/Controllers/Auth/AuthenticatedSessionController.php:61-65 | after destroy the guard holds no user |
| AuthenticatedSessionController.Store | backend/app/Http/Controllers/Auth/AuthenticatedSessionController.php:25-54 | refused credentials change nothing; an unverified user is logged out, the session invalidated and the token regenerated, with 423 "email-not-verified" (no user) or a redirect to /login?verify=required; a verified login regenerates the session and returns the user |
| AuthenticatedSessionController.Destroy | backend/app/Http/Controllers/Auth/AuthenticatedSessionController.php:59-72 | logout, invalidate, regenerate token, in that order, then "Logged out" or a redirect to / |
| Js.LocalStorage.GetItem | frontend/src/context/AuthContext.tsx:28-29 | getItem is null exactly for a missing key |
| Js.LocalStorage.SetItem | frontend/src/lib/api.ts:11 | setItem stores the value: getItem then returns it for the key and what it returned before for every other key |
| Js.LocalStorage.RemoveItem | frontend/src/lib/api.ts:12 | removeItem drops the key: getItem then returns null for it and what it returned before for every other key |
| VerifiedRoute.Decide | frontend/src/components/auth/VerifiedRoute.tsx:5-18 | nothing before initialization; then /login when not authenticated; then /login?verify=required when email_verified_at (read as user?.email_verified_at, Field) is falsy; children exactly when initialized, authenticated and verified; redirects carry the location |
| VerifiedRoute.UnauthenticatedNeverAskedToVerify | frontend/src/components/auth/VerifiedRoute.tsx:9-16 | an unauthenticated visitor is only ever sent to /login |
| VerifiedRoute.OnlyVerifiedObjectsPass | frontend/src/components/auth/VerifiedRoute.tsx:13-17 | only a user object with a truthy email_verified_at reaches the children |
| Api.LoadBaseUrl | frontend/src/lib/api.ts:1-6 | loading fails with the message iff VITE_API_BASE_URL is unset or empty |
| Api.ResolveUrl | frontend/src/lib/api.ts:19 | the URL ends with the path; a path starting with "http" is the URL itself, any other starts with BASE_URL; with an absolute BASE_URL every URL is absolute |
| Api.ResolveUrlIdempotent | frontend/src/lib/api.ts:19 | with an absolute base, resolving twice equals resolving once |
| Api.EncodePostBody | frontend/src/lib/api.ts:46 | FormData is sent as it is, undefined as no body, anything else as JSON.stringify |
| Api.Headers | frontend/src/lib/api.ts:20-29 | Accept defaults to JSON and a caller value overrides it; Content-Type is set only for a truthy non-FormData body, keeping a truthy caller value; Authorization is "Bearer " + token iff the token is truthy, overriding the caller |
| Api.ParseJson | frontend/src/lib/api.ts:57-64 | ok and status are copied; data is non-null only when the content type contains application/json and reading succeeded |
| Api.PostContentType | frontend/src/lib/api.ts:24-26 | a posted FormData or undefined body gets no Content-Type from the client; any other body gets application/json |
| Api.ApiClient.constructor | frontend/src/lib/api.ts:8 | the token starts as the stored auth_token |
| Api.ApiClient.SetAuthToken | frontend/src/lib/api.ts:10-14 | the variable always takes the value; a truthy token is stored, a falsy one removes the key |
| Api.ApiClient.Request | frontend/src/lib/api.ts:18-36 | the URL is ResolveUrl and the headers, built by successive assignments, are Headers |
| Api.ApiClient.Get | frontend/src/lib/api.ts:38-41 | a GET without body or caller headers, read by parseJson |
| Api.ApiClient.Post | frontend/src/lib/api.ts:43-50 | a POST of the encoded body with the caller headers, read by parseJson |
| Api.ApiClient.Del | frontend/src/lib/api.ts:52-55 | a DELETE without body, read by parseJson |
| AuthContext.AuthProvider.constructor | frontend/src/context/AuthContext.tsx:23-25 | no user, no token, not initialized |
| AuthContext.AuthProvider.IsAuthenticated | frontend/src/context/AuthContext.tsx:69 | true iff the user or the token is truthy |
| AuthContext.AuthProvider.RestoreSaved | frontend/src/context/AuthContext.tsx:28-37 | a truthy saved token is taken; a truthy saved user is parsed, and one that fails to parse becomes null |
| AuthContext.AuthProvider.FinishRestore | frontend/src/context/AuthContext.tsx:39-48 | an ok reply with data replaces and stores the user; an error or another reply leaves everything; initialized becomes true either way |
| AuthContext.AuthProvider.Login | frontend/src/context/AuthContext.tsx:51-58 | the token is always set and stored; the user is replaced and stored only when given; a non-empty token makes the state authenticated |
| AuthContext.AuthProvider.Logout | frontend/src/context/AuthContext.tsx:60-65 | user and token cleared, both storage keys removed, no longer authenticated |
| AuthContext.AuthProvider.SetUser | frontend/src/context/AuthContext.tsx:69 | the exposed setUser replaces the user only |
| AuthContext.UseAuth | frontend/src/context/AuthContext.tsx:76-80 | outside a provider it throws "useAuth must be used within AuthProvider" |
| AuthContext.TokenOnlyIsAskedToVerify | frontend/src/context/AuthContext.tsx:69 | a token without a user object counts as authenticated, so the route guard sends it to verify; with neither, to /login |

## Left out

- SVG output and pixel geometry of the identicon (`cellSize`, the rect coordinates and
  keys, the hsl() string, the white background rectangle). The grid is modelled in column and row indices. With a `size`
  of 0 the source's `mx !== rx` test would also suppress the mirrored rectangles; the
  model compares column indices.
- Identicon.LayoutCells: the order in which the rectangles are pushed is not stated. Only
  the set of cells and the absence of duplicates are.
- The text of `ProfileUpdateRequest` (which profile fields are validated, and how) is not
  part of this model. `update` takes the validated attributes as input.
- The login form request (field rules, rate limiting, the password hash check) is not part
  of this model. `store` takes the user the guard accepted, or none.
- A failed validation (the password of destroy, the avatar, the preferences, the resend
  email) is modelled as a 422 reply. For a request that does not expect JSON, the framework
  redirects back with the errors instead (for destroy, in the `userDeletion` error bag).
- AuthenticatedSessionController.Store: refused credentials are modelled as a 422 for every
  request; the framework would redirect a non-JSON request back with errors instead.
- PublicVerifyEmailController.Invoke: the 404 body of findOrFail is the framework's. It is
  modelled as the message "Not Found". An id that is not a number is modelled like an
  unknown id.
- The URL signature, sha1, hash_equals (modelled as string equality), the password hasher
  and the email-address rule are parameters.
- EmailChangeVoidsOldLink assumes sha1 gives different values for the old and new email.
- ProfileController.UploadAvatar: the validation message for a rejected upload is not
  modelled. Only the 422 status and "nothing changes" are stated. Whether a file is an
  image, and its guessed extension, come with the upload.
- Randomness: the stored file name, session ids and CSRF tokens. A new id is the old one
  plus one and a new token is the number of tokens issued so far, so only "it changed" is
  stated.
- The clock is a parameter. Mark-all-read uses one timestamp for all notifications.
- NotificationController.Limit: the `(int)` cast of the query string is not modelled. The
  limit arrives as an integer.
- NotificationController.Index: the order among notifications with the same `created_at`
  is not stated, since the database does not define it.
- Middleware that rewrites request input (TrimStrings, ConvertEmptyStringsToNull) is not
  modelled. Validation sees the raw values.
- PHP arrays: only string-keyed merges (`array_merge` on associative arrays) and the list
  built from `explode` are modelled. The key order of merged preferences is not.
- The routes behind `profile.edit` and `dashboard` are kept as route names. Their paths are
  defined in route files that are not part of this model.
- Email sending, storage drivers, the database and the session store are modelled only as
  the state they change: the event log, the file set, the tables and the session fields.
- `env()` special values ("true", "null", "(empty)") are not modelled. The settings arrive
  as plain strings or as unset.
- PasswordResetRoute.LinkParts: the read-back is PHP's urldecode. The reset page reads the
  token with the router's path decoding, which leaves "+" as "+", so for a token holding a
  space it would read a different token; the page does not read the email query at all.
  The page is not part of this model.
- UrlEncoding.UrlDecodeEncode: the round trip is stated for byte strings (all characters
  below 256), because PHP strings are bytes. A character above 255 is encoded from its low
  byte.
- On the client:
  - React rendering, effects and state batching are not modelled. The mount effect's
    asynchronous call is split into a synchronous restore and a continuation.
  - JSON.parse, JSON.stringify and fetch are parameters.
  - JavaScript numbers are integers, so NaN is not modelled.
  - `typeof localStorage === "undefined"` (no browser) is not modelled.
  - The API module's token and the auth provider share localStorage, but the model does
    not relate their two token variables.
- The pages, layouts and forms of the frontend, the CORS configuration, the route tables and
  the migration are outside the modelled core. `api.ts` has no `put` helper, so none is
  modelled.
