/** `FitbitAuth.generate_auth_url`: the authorization request of section
    4.1.1 of RFC 6749, built by string concatenation without any network call. */
module AuthUrl {
  import opened Wrappers
  import opened PyText
  import opened Escape
  import opened Auth

  /** The fixed text between the endpoint and the client id. */
  const ResponseTypeCode: string := "?response_type=code&client_id="

  /** The separator of the scope list inside the URL: an escaped space. */
  const ScopeSeparator: string := "%20"

  /** `generate_auth_url`: endpoint, `response_type=code`, the client id, the
      escaped redirect URI and the `%20`-joined scope list. A missing redirect
      URI makes `None.replace` raise. */
  function GenerateAuthUrl(a: FitbitAuth): (r: Result<string, Error>)
    ensures r.Failure? <==> a.redirectUri.None?
    ensures r.Failure? ==> r.error == MissingRedirectUri
  {
    match a.redirectUri
    case None => Failure(MissingRedirectUri)
    case Some(redirect) =>
      Success(AuthUri + ResponseTypeCode + a.clientId
        + "&redirect_uri=" + EscapeRedirect(redirect)
        + "&scope=" + Join(ScopeSeparator, a.scope))
  }

  /** The URL in terms of the per-character escaping of the redirect URI. */
  lemma GenerateAuthUrlShape(a: FitbitAuth, redirect: string)
    requires a.redirectUri == Some(redirect)
    ensures GenerateAuthUrl(a) == Success(
      AuthUri + ResponseTypeCode + a.clientId
      + "&redirect_uri=" + PerCharEscape(redirect)
      + "&scope=" + Join(ScopeSeparator, a.scope))
  {
    EscapeIsPerChar(redirect);
  }

  /** The URL reads only the client id, the redirect URI and the scope: no
      token field, and not the secret. */
  lemma GenerateAuthUrlIgnoresTokens(a: FitbitAuth, b: FitbitAuth)
    requires a.clientId == b.clientId && a.redirectUri == b.redirectUri && a.scope == b.scope
    ensures GenerateAuthUrl(a) == GenerateAuthUrl(b)
  {
  }

  /** The redirect component carries no `:` or `/`, and it gives back the
      redirect URI itself when that has no `%` of its own. */
  lemma GenerateAuthUrlRedirect(a: FitbitAuth, redirect: string)
    requires a.redirectUri == Some(redirect)
    ensures exists component ::
      && GenerateAuthUrl(a) == Success(AuthUri + ResponseTypeCode + a.clientId
           + "&redirect_uri=" + component + "&scope=" + Join(ScopeSeparator, a.scope))
      && ':' !in component && '/' !in component
      && ('%' !in redirect ==> Unescape(component) == redirect)
  {
    var component := EscapeRedirect(redirect);
    EscapeRemovesReserved(redirect);
    if '%' !in redirect {
      UnescapeEscape(redirect);
    }
  }

  /** No word of the vocabulary contains `%`. */
  lemma ValidScopeHasNoPercent(xs: seq<string>)
    requires ValidScope(xs)
    ensures forall i :: 0 <= i < |xs| ==> '%' !in xs[i]
  {
  }

  /** For a constructed instance the URL ends in the `%20`-joined scope, and
      splitting that text at `%20` gives back the stored scope in its order. */
  lemma GenerateAuthUrlScope(a: FitbitAuth, redirect: string)
    requires a.redirectUri == Some(redirect) && ValidScope(a.scope)
    ensures GenerateAuthUrl(a).Success?
    ensures var url, joined := GenerateAuthUrl(a).value, Join(ScopeSeparator, a.scope);
      && |joined| <= |url|
      && url[|url| - |joined|..] == joined
      && Split(joined, ScopeSeparator) == a.scope
  {
    ValidScopeHasNoPercent(a.scope);
    SplitJoin(a.scope, ScopeSeparator);
    var joined := Join(ScopeSeparator, a.scope);
    var head := AuthUri + ResponseTypeCode + a.clientId + "&redirect_uri=" + EscapeRedirect(redirect) + "&scope=";
    var url := head + joined;
    assert GenerateAuthUrl(a).value == url;
    assert url[|head|..] == joined;
  }
}
