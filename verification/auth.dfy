/** The `FitbitAuth` record of `pybit/auth.py`: its class constants, the
    constructor's scope check and field storage, and the pre-authorised test. */
module Auth {
  import opened Wrappers
  import opened PyText

  /** Class constant `api_uri`. */
  const ApiUri: string := "https://api.fitbit.com/oauth2"

  /** Class constant `auth_uri`: the authorization endpoint. */
  const AuthUri: string := "https://www.fitbit.com/oauth2/authorize"

  /** Class constant `full_scope`: the provider's permission vocabulary, in
      its declared order. */
  const FullScope: seq<string> :=
    ["activity", "heartrate", "location", "nutrition", "profile", "settings", "sleep", "social", "weight"]

  /** A Python `datetime`; its value plays no part in the modelled logic, and
      a `datetime` object is always truthy. */
  datatype Instant = Instant(epochSeconds: int)

  /** The exceptions the modelled code can raise. */
  datatype Error =
    | InvalidScope(scope: seq<string>)   // ValueError('Scope: ... is invalid')
    | MissingRedirectUri                 // AttributeError on None.replace
    | NonAsciiCredentials                // UnicodeEncodeError from encode('ascii')

  /** One `FitbitAuth` instance, with the optional constructor arguments as
      `Option`s. */
  datatype FitbitAuth = FitbitAuth(
    clientId: string,
    clientSecret: string,
    scope: seq<string>,
    accessToken: Option<string>,
    expiresDt: Option<Instant>,
    refreshToken: Option<string>,
    redirectUri: Option<string>)

  /** Every element of `xs` belongs to the vocabulary. */
  predicate InVocabulary(xs: seq<string>)
  {
    forall i :: 0 <= i < |xs| ==> xs[i] in FullScope
  }

  /** The scope a constructed instance holds: never empty, and inside the
      vocabulary. */
  predicate ValidScope(xs: seq<string>)
  {
    |xs| > 0 && InVocabulary(xs)
  }

  /** Every vocabulary word is spelled in lower-case ASCII letters only. */
  lemma VocabularyIsLowerCase()
    ensures forall w :: w in FullScope ==> forall j :: 0 <= j < |w| ==> 'a' <= w[j] <= 'z'
  {
  }

  /** Python's `set(scope).issubset(set(full_scope))`. */
  predicate IsSubsetOfFullScope(scope: seq<string>)
  {
    (set x | x in scope) <= (set x | x in FullScope)
  }

  /** The set test is the element-wise membership test. */
  lemma SubsetIsMembership(scope: seq<string>)
    ensures IsSubsetOfFullScope(scope) <==> InVocabulary(scope)
  {
    if IsSubsetOfFullScope(scope) {
      forall i | 0 <= i < |scope|
        ensures scope[i] in FullScope
      {
        var w := scope[i];
        var own, full := set x | x in scope, set x | x in FullScope;
        assert w in own && own <= full;
        assert w in full;
      }
    }
  }

  /** The constructor's scope handling: a missing or empty scope becomes the
      full vocabulary; a scope inside the vocabulary is kept exactly as given
      (order, duplicates and letter case included); anything else raises. */
  function CheckScope(scope: Option<seq<string>>): (r: Result<seq<string>, Error>)
    ensures r.Success? ==> ValidScope(r.value)
    ensures r.Failure? ==> scope.Some? && r.error == InvalidScope(scope.value)
    ensures r.Success? <==> scope.None? || |scope.value| == 0 || InVocabulary(scope.value)
    ensures r.Success? && scope.Some? && |scope.value| > 0 ==> r.value == scope.value
    ensures scope.None? || |scope.value| == 0 ==> r == Success(FullScope)
  {
    if scope.None? || |scope.value| == 0 then Success(FullScope)
    else if IsSubsetOfFullScope(scope.value) then
      SubsetIsMembership(scope.value);
      Success(scope.value)
    else
      SubsetIsMembership(scope.value);
      Failure(InvalidScope(scope.value))
  }

  /** `FitbitAuth.__init__`: stores the arguments as passed, with the scope
      checked; an invalid scope raises and no instance exists. */
  function New(
    clientId: string, clientSecret: string, scope: Option<seq<string>>,
    accessToken: Option<string>, expiresDt: Option<Instant>,
    refreshToken: Option<string>, redirectUri: Option<string>): (r: Result<FitbitAuth, Error>)
    ensures r.Success? <==> CheckScope(scope).Success?
    ensures r.Failure? ==> r.error == CheckScope(scope).error
    ensures r.Success? ==>
      && r.value.clientId == clientId
      && r.value.clientSecret == clientSecret
      && r.value.scope == CheckScope(scope).value
      && r.value.accessToken == accessToken
      && r.value.expiresDt == expiresDt
      && r.value.refreshToken == refreshToken
      && r.value.redirectUri == redirectUri
  {
    match CheckScope(scope)
    case Failure(e) => Failure(e)
    case Success(s) => Success(FitbitAuth(clientId, clientSecret, s, accessToken, expiresDt, refreshToken, redirectUri))
  }

  /** The test at the end of the constructor:
      `all([access_token, refresh_token, expires_dt])`. */
  function IsPreAuthorized(a: FitbitAuth): (r: bool)
    ensures r <==> Truthy(a.accessToken) && Truthy(a.refreshToken) && a.expiresDt.Some?
  {
    var flags := [Truthy(a.accessToken), Truthy(a.refreshToken), a.expiresDt.Some?];
    assert flags[0] == Truthy(a.accessToken) && flags[1] == Truthy(a.refreshToken) && flags[2] == a.expiresDt.Some?;
    All(flags)
  }

  /** No scope, or an empty one, yields the full vocabulary in its declared
      order, never an empty scope. */
  lemma NewDefaultsToFullScope(
    clientId: string, clientSecret: string, scope: Option<seq<string>>,
    accessToken: Option<string>, expiresDt: Option<Instant>,
    refreshToken: Option<string>, redirectUri: Option<string>)
    requires scope.None? || scope == Some([])
    ensures var r := New(clientId, clientSecret, scope, accessToken, expiresDt, refreshToken, redirectUri);
      && r.Success?
      && r.value.scope == ["activity", "heartrate", "location", "nutrition", "profile", "settings", "sleep", "social", "weight"]
  {
  }

  /** A non-empty scope inside the vocabulary is stored unchanged. */
  lemma NewKeepsValidScope(
    clientId: string, clientSecret: string, scope: seq<string>,
    accessToken: Option<string>, expiresDt: Option<Instant>,
    refreshToken: Option<string>, redirectUri: Option<string>)
    requires |scope| > 0 && forall i :: 0 <= i < |scope| ==> scope[i] in FullScope
    ensures var r := New(clientId, clientSecret, Some(scope), accessToken, expiresDt, refreshToken, redirectUri);
      r.Success? && r.value.scope == scope
  {
  }

  /** A scope with any element outside the vocabulary raises, whatever the
      other arguments are. */
  lemma NewRejectsUnknownScope(
    clientId: string, clientSecret: string, scope: seq<string>,
    accessToken: Option<string>, expiresDt: Option<Instant>,
    refreshToken: Option<string>, redirectUri: Option<string>, k: nat)
    requires k < |scope| && scope[k] !in FullScope
    ensures New(clientId, clientSecret, Some(scope), accessToken, expiresDt, refreshToken, redirectUri)
      == Failure(InvalidScope(scope))
  {
  }

  /** Duplicates and order are kept. */
  lemma ScopeKeepsDuplicatesAndOrder()
    ensures CheckScope(Some(["sleep", "activity", "sleep"])) == Success(["sleep", "activity", "sleep"])
  {
  }

  /** There is no case normalisation: a capitalised word is rejected. */
  lemma ScopeIsCaseSensitive()
    ensures CheckScope(Some(["Sleep"])) == Failure(InvalidScope(["Sleep"]))
  {
    forall k | 0 <= k < |FullScope|
      ensures FullScope[k] != "Sleep"
    {
      assert FullScope[k][0] in "ahlnpsw";
    }
    var xs := ["Sleep"];
    assert xs[0] !in FullScope;
    assert !InVocabulary(xs);
  }

  /** A freshly built instance is pre-authorised exactly when the access
      token and refresh token are non-empty strings and an expiry is given;
      the scope plays no part. */
  lemma NewPreAuthorized(
    clientId: string, clientSecret: string, scope: Option<seq<string>>,
    accessToken: Option<string>, expiresDt: Option<Instant>,
    refreshToken: Option<string>, redirectUri: Option<string>)
    requires New(clientId, clientSecret, scope, accessToken, expiresDt, refreshToken, redirectUri).Success?
    ensures IsPreAuthorized(New(clientId, clientSecret, scope, accessToken, expiresDt, refreshToken, redirectUri).value)
      <==> accessToken.Some? && accessToken.value != "" && refreshToken.Some? && refreshToken.value != "" && expiresDt.Some?
  {
  }
}
