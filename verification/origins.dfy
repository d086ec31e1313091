/**
 * The single-page frontend's base URL, as both the password-reset route and the email
 * verification controller compute it from the FRONTEND_ORIGINS and APP_URL settings:
 *   - FRONTEND_ORIGINS (default "") is split on commas, each piece trimmed, and the pieces
 *     PHP considers false ("" and "0") removed, the others keeping their original keys;
 *   - the first remaining origin that names a local host (localhost, 127.0.0.1 or 192.168.)
 *     and a dev port (:5173 or :8080) wins;
 *   - otherwise the entry at key 0, if it survived the filter;
 *   - otherwise APP_URL (default "/").
 * Links are then built as rtrim(base, '/') followed by a path.
 */
module FrontendOrigins {

  import opened Common
  import opened Strings

  /** The two settings, as the environment gives them (None when unset). */
  datatype Settings = Settings(frontendOrigins: Option<string>, appUrl: Option<string>)

  /** A PHP array entry: its key and its value. */
  datatype Entry = Entry(key: nat, value: string)

  /** array_map('trim', explode(',', $s)). */
  function TrimmedPieces(s: string): (pieces: seq<string>)
    ensures |pieces| == |Explode(s, ',')|
    ensures forall i :: 0 <= i < |pieces| ==> pieces[i] == Trim(Explode(s, ',')[i])
  {
    var parts := Explode(s, ',');
    seq(|parts|, i requires 0 <= i < |parts| => Trim(parts[i]))
  }

  /** array_filter on xs[from..], keys counted from `from`: the truthy entries, original keys kept. */
  function FilterFrom(xs: seq<string>, from: nat): seq<Entry>
    requires from <= |xs|
    decreases |xs| - from
  {
    if from == |xs| then []
    else
      var rest := FilterFrom(xs, from + 1);
      if PhpTruthy(xs[from]) then [Entry(from, xs[from])] + rest else rest
  }

  /** array_filter($xs): keys are the positions in xs. */
  function ArrayFilter(xs: seq<string>): seq<Entry> {
    FilterFrom(xs, 0)
  }

  /**
   * What array_filter keeps: exactly the truthy entries, each under its original key, in
   * key order.
   */
  lemma {:induction false} FilterFromKeeps(xs: seq<string>, from: nat)
    requires from <= |xs|
    ensures var arr := FilterFrom(xs, from);
      && (forall e :: e in arr ==> from <= e.key < |xs| && xs[e.key] == e.value && PhpTruthy(e.value))
      && (forall k :: from <= k < |xs| && PhpTruthy(xs[k]) ==> Entry(k, xs[k]) in arr)
      && (forall i, j :: 0 <= i < j < |arr| ==> arr[i].key < arr[j].key)
    decreases |xs| - from
  {
    if from < |xs| {
      FilterFromKeeps(xs, from + 1);
      var rest := FilterFrom(xs, from + 1);
      if PhpTruthy(xs[from]) {
        var arr := [Entry(from, xs[from])] + rest;
        assert forall e :: e in arr ==> e == arr[0] || e in rest;
        assert forall j :: 1 <= j < |arr| ==> arr[j] in rest;
      }
    }
  }

  /** The configured origins: the filtered, trimmed pieces of FRONTEND_ORIGINS (default ""). */
  function Origins(settings: Settings): seq<Entry> {
    ArrayFilter(TrimmedPieces(settings.frontendOrigins.GetOr("")))
  }

  /** $arr[0] ?? null. */
  function AtKeyZero(arr: seq<Entry>): (r: Option<string>)
    ensures r.Some? <==> exists i :: 0 <= i < |arr| && arr[i].key == 0
    ensures r.Some? ==> Entry(0, r.value) in arr
    decreases |arr|
  {
    if arr == [] then None
    else if arr[0].key == 0 then Some(arr[0].value)
    else AtKeyZero(arr[1..])
  }

  /** The two unanchored patterns: a local host and a dev port. */
  predicate DevOrigin(o: string) {
    && (Contains(o, "localhost") || Contains(o, "127.0.0.1") || Contains(o, "192.168."))
    && (Contains(o, ":5173") || Contains(o, ":8080"))
  }

  /** The value of the first entry that is a dev origin. */
  function FirstDevOrigin(arr: seq<Entry>): Option<string>
    decreases |arr|
  {
    if arr == [] then None
    else if DevOrigin(arr[0].value) then Some(arr[0].value)
    else FirstDevOrigin(arr[1..])
  }

  /**
   * FirstDevOrigin finds nothing exactly when no entry is a dev origin, and otherwise the
   * value of an entry that is one, with none before it.
   */
  lemma {:induction false} FirstDevOriginIsFirst(arr: seq<Entry>)
    ensures FirstDevOrigin(arr).None? <==> forall i :: 0 <= i < |arr| ==> !DevOrigin(arr[i].value)
    ensures FirstDevOrigin(arr).Some? ==> exists i :: (0 <= i < |arr|
      && arr[i].value == FirstDevOrigin(arr).value && DevOrigin(arr[i].value)
      && forall j :: 0 <= j < i ==> !DevOrigin(arr[j].value))
    decreases |arr|
  {
    if arr != [] && !DevOrigin(arr[0].value) {
      var tail := arr[1..];
      FirstDevOriginIsFirst(tail);
      assert forall j :: 1 <= j < |arr| ==> arr[j] == tail[j - 1];
      if FirstDevOrigin(tail).Some? {
        var i :| 0 <= i < |tail| && tail[i].value == FirstDevOrigin(tail).value && DevOrigin(tail[i].value)
          && forall j :: 0 <= j < i ==> !DevOrigin(tail[j].value);
        assert arr[i + 1] == tail[i];
      }
    } else if arr != [] {
      assert DevOrigin(arr[0].value);
    }
  }

  /** $preferred ?? ($origins[0] ?? env('APP_URL', '/')). */
  function RedirectBase(settings: Settings): string {
    var origins := Origins(settings);
    match FirstDevOrigin(origins)
    case Some(p) => p
    case None =>
      match AtKeyZero(origins)
      case Some(o) => o
      case None => settings.appUrl.GetOr("/")
  }

  /** The foreach over the origins that stops at the first dev origin. */
  method PreferredOrigin(origins: seq<Entry>) returns (preferred: Option<string>)
    ensures preferred == FirstDevOrigin(origins)
  {
    preferred := None;
    for i := 0 to |origins|
      invariant FirstDevOrigin(origins) == FirstDevOrigin(origins[i..])
    {
      assert origins[i..][1..] == origins[i + 1..];
      if DevOrigin(origins[i].value) {
        preferred := Some(origins[i].value);
        break;
      }
    }
  }

  /** The base as the two callers compute it: the loop, then the two fallbacks. */
  method SelectBase(settings: Settings) returns (base: string)
    ensures base == RedirectBase(settings)
  {
    var origins := Origins(settings);
    var preferred := PreferredOrigin(origins);
    if preferred.Some? {
      base := preferred.value;
    } else {
      var first := AtKeyZero(origins);
      base := if first.Some? then first.value else settings.appUrl.GetOr("/");
    }
  }

  /**
   * rtrim($base, '/') . $path: the path follows the base with its trailing slashes cut, so
   * the character before the path is never a slash that came from the base.
   */
  function JoinPath(base: string, path: string): (r: string)
    ensures |path| <= |r| && r[|r| - |path|..] == path
    ensures var b := r[..|r| - |path|];
      && |b| <= |base| && b == base[..|b|]
      && (forall i :: |b| <= i < |base| ==> base[i] == '/')
      && (b == [] || b[|b| - 1] != '/')
  {
    var b := TrimEnd(base, {'/'});
    assert (b + path)[..|b|] == b;
    b + path
  }

  /** Which rule picked the base: a dev origin if there is one. */
  lemma BasePrefersDevOrigin(settings: Settings)
    requires exists i :: 0 <= i < |Origins(settings)| && DevOrigin(Origins(settings)[i].value)
    ensures DevOrigin(RedirectBase(settings))
    ensures RedirectBase(settings) in TrimmedPieces(settings.frontendOrigins.GetOr(""))
  {
    var pieces := TrimmedPieces(settings.frontendOrigins.GetOr(""));
    var origins := ArrayFilter(pieces);
    assert origins == Origins(settings);
    FirstDevOriginIsFirst(origins);
    var p := FirstDevOrigin(origins).value;
    assert RedirectBase(settings) == p;
    var i :| 0 <= i < |origins| && origins[i].value == p && DevOrigin(origins[i].value)
      && forall j :: 0 <= j < i ==> !DevOrigin(origins[j].value);
    FilterFromKeeps(pieces, 0);
    assert origins[i] in origins;
    assert pieces[origins[i].key] == p;
  }

  /**
   * Without a dev origin the first piece decides: when it is truthy it is the base,
   * otherwise (for example when FRONTEND_ORIGINS starts with a comma) APP_URL is the base,
   * even if later pieces hold origins.
   */
  lemma {:induction false} BaseWithoutDevOrigin(settings: Settings)
    requires forall i :: 0 <= i < |Origins(settings)| ==> !DevOrigin(Origins(settings)[i].value)
    ensures var first := TrimmedPieces(settings.frontendOrigins.GetOr(""))[0];
      RedirectBase(settings) == if PhpTruthy(first) then first else settings.appUrl.GetOr("/")
  {
    var pieces := TrimmedPieces(settings.frontendOrigins.GetOr(""));
    var origins := Origins(settings);
    FilterFromKeeps(pieces, 0);
    FirstDevOriginIsFirst(origins);
    if PhpTruthy(pieces[0]) {
      assert Entry(0, pieces[0]) in origins;
      var z := AtKeyZero(origins);
      var e := Entry(0, z.value);
      assert e in origins;
      assert e.value == pieces[e.key];
    }
  }

  /** With FRONTEND_ORIGINS unset the base is APP_URL, or "/" when that is unset too. */
  lemma BaseWhenOriginsUnset(appUrl: Option<string>)
    ensures RedirectBase(Settings(None, appUrl)) == appUrl.GetOr("/")
  {
    assert Explode("", ',') == [""];
    assert TrimmedPieces("") == [""] by { assert Trim("") == ""; }
  }
}
