/**
 * The web route named password.reset, GET /reset-password/{token}. The password-reset
 * mail links to it, and it sends the browser on to the single-page frontend's own
 * reset page: the token goes in the path and the email, when one is given, in the query.
 */
module PasswordResetRoute {

  import opened Common
  import opened Strings
  import opened FrontendOrigins
  import opened UrlEncoding

  /** The frontend path before the token. */
  const ResetPath: string := "/reset-password/"

  /** The query that carries the email. */
  const EmailQuery: string := "?email="

  /** The query part of the link: the encoded email, or nothing when the email is empty. */
  function EmailPart(email: Option<string>): string {
    if PhpEmpty(email) then "" else EmailQuery + UrlEncode(email.value)
  }

  /** The frontend URL built on `base`, for the `email` query value (None when absent). */
  function ResetLink(base: string, token: string, email: Option<string>): string {
    JoinPath(base, ResetPath + UrlEncode(token)) + EmailPart(email)
  }

  /** The link is the base without trailing slashes, the reset path, the encoded token and the query, in that order. */
  lemma ResetLinkShape(base: string, token: string, email: Option<string>)
    ensures ResetLink(base, token, email) == TrimEnd(base, {'/'}) + ResetPath + UrlEncode(token) + EmailPart(email)
  {
  }

  /** The closure: the origin loop, then the link, then redirect()->away(). */
  method ResetRedirect(settings: Settings, token: string, email: Option<string>)
    returns (r: Response<Message>)
    ensures r == Redirect(ResetLink(RedirectBase(settings), token, email))
  {
    var base := SelectBase(settings);
    var query := "";
    if !PhpEmpty(email) {
      query := EmailQuery + UrlEncode(email.value);
    }
    r := Redirect(JoinPath(base, ResetPath + UrlEncode(token)) + query);
  }

  /**
   * What PHP's urldecode reads back from a link made of a prefix, an encoded token and the
   * email query (ResetLinkShape shows every reset link is one, on the prefix
   * rtrim(base, '/') + "/reset-password/"): the prefix, then the encoded token, which holds
   * no "/" or "?" and decodes to the token; after it, the email query exactly when the
   * email is not empty, decoding to the email.
   */
  lemma LinkParts(prefix: string, token: string, email: Option<string>)
    requires IsByteString(token)
    requires email.Some? ==> IsByteString(email.value)
    ensures var link := prefix + UrlEncode(token) + EmailPart(email);
      var n := |prefix| + |UrlEncode(token)|;
      && n <= |link|
      && link[..|prefix|] == prefix
      && (forall i :: |prefix| <= i < n ==> link[i] != '/' && link[i] != '?')
      && UrlDecode(link[|prefix|..n]) == token
      && (PhpEmpty(email) <==> n == |link|)
      && (!PhpEmpty(email) ==>
            link[n..n + |EmailQuery|] == EmailQuery && UrlDecode(link[n + |EmailQuery|..]) == email.value)
  {
    var query := EmailPart(email);
    TokenSegment(prefix, token, query);
    QuerySegment(email);
    var link := prefix + UrlEncode(token) + query;
    var n := |prefix| + |UrlEncode(token)|;
    if !PhpEmpty(email) {
      assert link[n..n + |EmailQuery|] == query[..|EmailQuery|];
      assert link[n + |EmailQuery|..] == query[|EmailQuery|..];
    }
  }

  /**
   * Whatever comes before and after it, an encoded token occupies its own segment of the
   * link: no "/" or "?" in it, and it decodes to the token.
   */
  lemma TokenSegment(prefix: string, token: string, query: string)
    requires IsByteString(token)
    ensures var link := prefix + UrlEncode(token) + query;
      var n := |prefix| + |UrlEncode(token)|;
      && link[..|prefix|] == prefix
      && (forall i :: |prefix| <= i < n ==> link[i] != '/' && link[i] != '?')
      && UrlDecode(link[|prefix|..n]) == token
      && link[n..] == query
  {
    var encoded := UrlEncode(token);
    var link := prefix + encoded + query;
    var n := |prefix| + |encoded|;
    assert link[|prefix|..n] == encoded;
    EncodedHasNoDelimiters(token);
    forall i | |prefix| <= i < n
      ensures link[i] != '/' && link[i] != '?'
    {
      assert link[i] == encoded[i - |prefix|];
    }
    UrlDecodeEncode(token);
  }

  /** The query part is empty exactly for an empty email, and otherwise decodes to the email. */
  lemma QuerySegment(email: Option<string>)
    requires email.Some? ==> IsByteString(email.value)
    ensures PhpEmpty(email) <==> EmailPart(email) == ""
    ensures !PhpEmpty(email) ==>
      && |EmailQuery| <= |EmailPart(email)|
      && EmailPart(email)[..|EmailQuery|] == EmailQuery
      && UrlDecode(EmailPart(email)[|EmailQuery|..]) == email.value
  {
    if !PhpEmpty(email) {
      UrlDecodeEncode(email.value);
      assert EmailPart(email)[|EmailQuery|..] == UrlEncode(email.value);
    }
  }

  /** An absent email, an empty one and "0" all leave the query out. */
  lemma EmptyEmailLeavesNoQuery(base: string, token: string)
    ensures ResetLink(base, token, None) == ResetLink(base, token, Some(""))
    ensures ResetLink(base, token, Some("0")) == ResetLink(base, token, None)
    ensures ResetLink(base, token, None) == TrimEnd(base, {'/'}) + ResetPath + UrlEncode(token)
  {
  }
}
