/**
 * The client's HTTP helper. The API base URL comes from the build environment and its
 * absence stops the module from loading; the bearer token lives in a module variable
 * mirrored in localStorage. Each request goes to the base URL plus the path (or to the
 * path itself when it is absolute), with JSON accepted, cookies included, a JSON content
 * type for a JSON body and the bearer token when there is one. The reply is read as JSON
 * only when its content type says so.
 *
 * fetch, JSON.stringify and the reading of a response body are parameters.
 */
module Api {

  import opened Common
  import opened Strings
  import opened Js

  const AuthTokenKey: string := "auth_token"
  const JsonType: string := "application/json"
  const MissingBaseUrlMessage: string :=
    "VITE_API_BASE_URL is not set. Define it in frontend/.env (e.g., VITE_API_BASE_URL=http://127.0.0.1:8000)."

  /** Loading the module: the base URL, or the error thrown when it is unset or empty. */
  function LoadBaseUrl(env: Option<string>): (r: Result<string, string>)
    ensures r.Success? <==> TruthyString(env)
    ensures r.Success? ==> r.value == env.value
    ensures r.Failure? ==> r.error == MissingBaseUrlMessage
  {
    if env.None? || env.value == "" then Failure(MissingBaseUrlMessage) else Success(env.value)
  }

  /** `path.startsWith("http") ? path : BASE_URL + path`. */
  function ResolveUrl(baseUrl: string, path: string): (url: string)
    ensures |path| <= |url| && url[|url| - |path|..] == path
    ensures StartsWith(path, "http") ==> url == path
    ensures !StartsWith(path, "http") ==> |url| == |baseUrl| + |path| && StartsWith(url, baseUrl)
    ensures StartsWith(baseUrl, "http") ==> StartsWith(url, "http")
  {
    if StartsWith(path, "http") then path else baseUrl + path
  }

  /**
   * With an absolute base URL, resolving is idempotent: a resolved URL is absolute and
   * resolves to itself.
   */
  lemma ResolveUrlIdempotent(baseUrl: string, path: string)
    requires StartsWith(baseUrl, "http")
    ensures StartsWith(ResolveUrl(baseUrl, path), "http")
    ensures ResolveUrl(baseUrl, ResolveUrl(baseUrl, path)) == ResolveUrl(baseUrl, path)
  {
    if !StartsWith(path, "http") {
      assert (baseUrl + path)[..4] == baseUrl[..4];
    }
  }

  /** The body of a request as fetch receives it. */
  datatype RequestBody =
    | NoBody
    | FormBody(form: JsValue)
    | TextBody(text: string)

  /** `options.body && !(options.body instanceof FormData)`. */
  predicate IsJsonBody(body: RequestBody) {
    body.TextBody? && body.text != ""
  }

  /** post's encoding: FormData as it is, undefined as no body, anything else as JSON. */
  function EncodePostBody(body: JsValue, stringify: JsValue -> string): (r: RequestBody)
    ensures body.FormData? <==> r.FormBody?
    ensures r.FormBody? ==> r.form == body
    ensures body == Undefined <==> r == NoBody
    ensures r.TextBody? ==> r.text == stringify(body)
  {
    if body.FormData? then FormBody(body)
    else if body == Undefined then NoBody
    else TextBody(stringify(body))
  }

  /**
   * The header map `request` sends, key by key: Accept defaults to JSON and a caller header
   * overrides it; the caller's other headers pass through; Content-Type is the caller's
   * truthy value or JSON, set only for a JSON body; Authorization is the bearer token,
   * set exactly when the token is truthy and overriding any caller value.
   */
  function Headers(extra: map<string, string>, body: RequestBody, authToken: Option<string>)
    : (h: map<string, string>)
    ensures h.Keys == {"Accept"} + extra.Keys
      + (if IsJsonBody(body) then {"Content-Type"} else {})
      + (if TruthyString(authToken) then {"Authorization"} else {})
    ensures h["Accept"] == if "Accept" in extra then extra["Accept"] else JsonType
    ensures IsJsonBody(body) ==>
      h["Content-Type"] == if "Content-Type" in extra && extra["Content-Type"] != "" then extra["Content-Type"] else JsonType
    ensures TruthyString(authToken) ==> h["Authorization"] == "Bearer " + authToken.value
    ensures forall k :: k in extra && k !in {"Accept", "Content-Type", "Authorization"} ==> h[k] == extra[k]
    ensures !IsJsonBody(body) && "Content-Type" in extra ==> h["Content-Type"] == extra["Content-Type"]
    ensures !TruthyString(authToken) && "Authorization" in extra ==> h["Authorization"] == extra["Authorization"]
  {
    var base := map["Accept" := JsonType] + extra;
    var typed := if IsJsonBody(body) then
        base["Content-Type" := if "Content-Type" in base && base["Content-Type"] != "" then base["Content-Type"] else JsonType]
      else base;
    if TruthyString(authToken) then typed["Authorization" := "Bearer " + authToken.value] else typed
  }

  /** A request as fetch receives it: URL, HTTP method, headers, body; credentials are always "include". */
  datatype FetchRequest = FetchRequest(url: string, verb: string, headers: map<string, string>, body: RequestBody)

  /**
   * A response: its status, its content-type header (None when absent) and the result of
   * reading the body as JSON (None when that throws).
   */
  datatype FetchResponse = FetchResponse(status: nat, contentType: Option<string>, json: Option<JsValue>)

  /** The Fetch standard's `ok`: a status in 200 to 299. */
  predicate Ok(res: FetchResponse) {
    200 <= res.status <= 299
  }

  /** What get, post and del resolve to. */
  datatype ApiResult = ApiResult(ok: bool, status: nat, data: JsValue, raw: FetchResponse)

  /** parseJson: data is read only from a JSON response, and stays null when reading fails. */
  function ParseJson(res: FetchResponse): (r: ApiResult)
    ensures r.ok == Ok(res) && r.status == res.status && r.raw == res
    ensures r.data != Null ==> Contains(res.contentType.GetOr(""), JsonType) && res.json == Some(r.data)
    ensures Contains(res.contentType.GetOr(""), JsonType) && res.json.Some? ==> r.data == res.json.value
  {
    var data := if Contains(res.contentType.GetOr(""), JsonType) && res.json.Some? then res.json.value else Null;
    ApiResult(Ok(res), res.status, data, res)
  }

  /** The module's state: the base URL and the bearer token, with the storage it mirrors. */
  class ApiClient {
    const baseUrl: string
    var authToken: Option<string>
    const storage: LocalStorage

    /** Loading with a set base URL: the token is whatever localStorage holds. */
    constructor (baseUrl: string, storage: LocalStorage)
      ensures this.baseUrl == baseUrl && this.storage == storage
      ensures authToken == storage.GetItem(AuthTokenKey)
    {
      this.baseUrl := baseUrl;
      this.storage := storage;
      authToken := storage.GetItem(AuthTokenKey);
    }

    /** setAuthToken: the variable takes the value; storage keeps a truthy token and drops a falsy one. */
    method SetAuthToken(token: Option<string>)
      modifies this, storage
      ensures authToken == token
      ensures TruthyString(token) ==> storage.items == old(storage.items)[AuthTokenKey := token.value]
      ensures !TruthyString(token) ==> storage.items == old(storage.items) - {AuthTokenKey}
    {
      authToken := token;
      if TruthyString(token) {
        storage.SetItem(AuthTokenKey, token.value);
      } else {
        storage.RemoveItem(AuthTokenKey);
      }
    }

    /** request: the URL, then the headers by successive assignments. */
    method Request(path: string, verb: string, body: RequestBody, extra: Option<map<string, string>>)
      returns (req: FetchRequest)
      ensures req.url == ResolveUrl(baseUrl, path)
      ensures req.verb == verb && req.body == body
      ensures req.headers == Headers(extra.GetOr(map[]), body, authToken)
    {
      var url := ResolveUrl(baseUrl, path);
      var headers := map["Accept" := JsonType] + extra.GetOr(map[]);
      if IsJsonBody(body) {
        headers := headers["Content-Type" := if "Content-Type" in headers && headers["Content-Type"] != "" then headers["Content-Type"] else JsonType];
      }
      if TruthyString(authToken) {
        headers := headers["Authorization" := "Bearer " + authToken.value];
      }
      req := FetchRequest(url, verb, headers, body);
    }

    method Get(path: string, fetch: FetchRequest -> FetchResponse) returns (r: ApiResult)
      ensures r == ParseJson(fetch(FetchRequest(ResolveUrl(baseUrl, path), "GET", Headers(map[], NoBody, authToken), NoBody)))
    {
      var req := Request(path, "GET", NoBody, None);
      r := ParseJson(fetch(req));
    }

    method Post(path: string, body: JsValue, extra: Option<map<string, string>>,
                fetch: FetchRequest -> FetchResponse, stringify: JsValue -> string) returns (r: ApiResult)
      ensures var encoded := EncodePostBody(body, stringify);
        r == ParseJson(fetch(FetchRequest(ResolveUrl(baseUrl, path), "POST",
                                          Headers(extra.GetOr(map[]), encoded, authToken), encoded)))
    {
      var req := Request(path, "POST", EncodePostBody(body, stringify), extra);
      r := ParseJson(fetch(req));
    }

    method Del(path: string, fetch: FetchRequest -> FetchResponse) returns (r: ApiResult)
      ensures r == ParseJson(fetch(FetchRequest(ResolveUrl(baseUrl, path), "DELETE", Headers(map[], NoBody, authToken), NoBody)))
    {
      var req := Request(path, "DELETE", NoBody, None);
      r := ParseJson(fetch(req));
    }
  }

  /**
   * A posted FormData never gets a Content-Type from the client, so the browser can set the
   * multipart boundary; any other posted value gets JSON unless the caller named a type.
   */
  lemma PostContentType(body: JsValue, extra: map<string, string>, stringify: JsValue -> string,
                        authToken: Option<string>)
    requires "Content-Type" !in extra
    requires forall v :: stringify(v) != ""
    ensures var h := Headers(extra, EncodePostBody(body, stringify), authToken);
      && ("Content-Type" in h <==> !body.FormData? && body != Undefined)
      && ("Content-Type" in h ==> h["Content-Type"] == JsonType)
  {
  }
}
