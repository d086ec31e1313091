/**
 * The client's authentication state: the user object, the bearer token and whether the
 * startup restore has finished, mirrored in localStorage under `auth_user` and
 * `auth_token`. On mount the saved values are restored at once, then the server is asked
 * for the current user; `initialized` turns true when that attempt ends, however it ends.
 *
 * The mount effect runs in two parts here, because its server call is asynchronous: the
 * synchronous restore, and the continuation once the call has settled. JSON.parse and
 * JSON.stringify are parameters; a parse that throws is None.
 */
module AuthContext {

  import opened Common
  import opened Js
  import opened Api
  import VerifiedRoute

  const UserKey: string := "auth_user"
  const TokenKey: string := "auth_token"
  const OutsideProviderMessage: string := "useAuth must be used within AuthProvider"

  /** `!!user || !!token`. */
  predicate Authenticated(user: JsValue, token: Option<string>) {
    Truthy(user) || TruthyString(token)
  }

  class AuthProvider {
    var user: JsValue
    var token: Option<string>
    var initialized: bool
    const storage: LocalStorage

    /** The initial state: no user, no token, not initialized. */
    constructor (storage: LocalStorage)
      ensures user == Null && token == None && !initialized && this.storage == storage
    {
      user, token, initialized := Null, None, false;
      this.storage := storage;
    }

    /** The value the provider exposes as isAuthenticated. */
    function IsAuthenticated(): (b: bool)
      reads this
      ensures b <==> Truthy(user) || TruthyString(token)
    {
      Authenticated(user, token)
    }

    /**
     * The synchronous part of the mount effect: a truthy saved token is taken; a truthy
     * saved user is parsed, and one that fails to parse leaves the user null.
     */
    method RestoreSaved(parse: string -> Option<JsValue>)
      modifies this
      ensures var saved := storage.GetItem(TokenKey);
        token == if TruthyString(saved) then saved else old(token)
      ensures var saved := storage.GetItem(UserKey);
        user == if !TruthyString(saved) then old(user)
                else parse(saved.value).GetOr(Null)
      ensures initialized == old(initialized)
    {
      var savedToken := storage.GetItem(TokenKey);
      var savedUser := storage.GetItem(UserKey);
      if TruthyString(savedToken) {
        token := savedToken;
      }
      if TruthyString(savedUser) {
        var parsed := parse(savedUser.value);
        if parsed.Some? {
          user := parsed.value;
        } else {
          user := Null;
        }
      }
    }

    /**
     * The continuation after GET /api/user. `reply` is None when the call threw. An ok
     * reply with truthy data replaces and stores the user; anything else leaves the state
     * as it was. The provider is initialized afterwards in every case.
     */
    method FinishRestore(reply: Option<ApiResult>, stringify: JsValue -> string)
      modifies this, storage
      ensures initialized
      ensures token == old(token)
      ensures var accepted := reply.Some? && reply.value.ok && Truthy(reply.value.data);
        && user == (if accepted then reply.value.data else old(user))
        && storage.items == if accepted then old(storage.items)[UserKey := stringify(reply.value.data)]
                            else old(storage.items)
    {
      if reply.Some? && reply.value.ok && Truthy(reply.value.data) {
        user := reply.value.data;
        storage.SetItem(UserKey, stringify(reply.value.data));
      }
      initialized := true;
    }

    /** login: the token is always taken and stored; the user only when one is given. */
    method Login(tok: string, usr: JsValue, stringify: JsValue -> string)
      modifies this, storage
      ensures token == Some(tok)
      ensures user == if Truthy(usr) then usr else old(user)
      ensures storage.items == if Truthy(usr) then old(storage.items)[TokenKey := tok][UserKey := stringify(usr)]
                               else old(storage.items)[TokenKey := tok]
      ensures initialized == old(initialized)
      ensures tok != "" ==> IsAuthenticated()
    {
      token := Some(tok);
      storage.SetItem(TokenKey, tok);
      if Truthy(usr) {
        user := usr;
        storage.SetItem(UserKey, stringify(usr));
      }
    }

    /** logout: both values cleared, both keys removed. */
    method Logout()
      modifies this, storage
      ensures user == Null && token == None
      ensures storage.items == old(storage.items) - {TokenKey, UserKey}
      ensures initialized == old(initialized)
      ensures !IsAuthenticated()
    {
      token := None;
      user := Null;
      storage.RemoveItem(TokenKey);
      storage.RemoveItem(UserKey);
      assert storage.items == old(storage.items) - {TokenKey} - {UserKey};
    }

    /** setUser, as the context exposes it; nothing is stored. */
    method SetUser(u: JsValue)
      modifies this
      ensures user == u && token == old(token) && initialized == old(initialized)
    {
      user := u;
    }

    /** What VerifiedRoute decides for this state. */
    function Route(location: string): VerifiedRoute.RouteOutcome
      reads this
    {
      VerifiedRoute.Decide(initialized, IsAuthenticated(), user, location)
    }
  }

  /** useAuth: the provider's value, or the error thrown outside a provider. */
  function UseAuth(ctx: Option<AuthProvider>): (r: Result<AuthProvider, string>)
    ensures r.Success? <==> ctx.Some?
    ensures r.Success? ==> r.value == ctx.value
    ensures r.Failure? ==> r.error == OutsideProviderMessage
  {
    if ctx.None? then Failure(OutsideProviderMessage) else Success(ctx.value)
  }

  /**
   * A non-empty token with no user object is authenticated but not verified, so the route
   * guard sends it to verify once initialized; after a logout the guard sends to login.
   */
  lemma TokenOnlyIsAskedToVerify(token: string, location: string)
    requires token != ""
    ensures Authenticated(Null, Some(token))
    ensures VerifiedRoute.Decide(true, Authenticated(Null, Some(token)), Null, location)
      == VerifiedRoute.Navigate(VerifiedRoute.VerifyRequiredPath, location)
    ensures VerifiedRoute.Decide(true, Authenticated(Null, None), Null, location)
      == VerifiedRoute.Navigate(VerifiedRoute.LoginPath, location)
  {
  }
}
