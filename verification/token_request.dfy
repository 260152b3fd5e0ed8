/** The part of `FitbitAuth.get_access_token` that exists: the HTTP Basic
    credential (section 2 of RFC 7617) built from the client id and secret,
    the fixed content type, and the choice of form body between the
    authorization-code grant (section 4.1.3 of RFC 6749) and the refresh grant
    (section 6 of RFC 6749). The request itself is never sent. */
module TokenRequest {
  import opened Wrappers
  import opened PyText
  import Base64
  import opened Auth

  const FormContentType: string := "application/x-www-form-urlencoded"

  /** The `header` dictionary. */
  datatype Headers = Headers(authorization: string, contentType: string)

  /** The `body` dictionary, one constructor per grant. */
  datatype Body =
    | AuthorizationCodeGrant(clientId: string, redirectUri: Option<string>, code: Option<string>)
    | RefreshTokenGrant(refreshToken: Option<string>)

  /** A prepared request to the token endpoint. */
  datatype PreparedRequest = PreparedRequest(headers: Headers, body: Body)

  /** The `body` dictionary as form fields, in the order the code lists them;
      `None` stands for a Python `None` value. */
  function FormFields(body: Body): (fields: seq<(string, Option<string>)>)
    ensures body.AuthorizationCodeGrant? ==>
      && |fields| == 4
      && ("client_id", Some(body.clientId)) in fields && ("grant_type", Some("authorization_code")) in fields
      && ("redirect_uri", body.redirectUri) in fields && ("code", body.code) in fields
    ensures body.RefreshTokenGrant? ==>
      && |fields| == 2
      && ("grant_type", Some("refresh_token")) in fields && ("refresh_token", body.refreshToken) in fields
    ensures forall i, j :: 0 <= i < j < |fields| ==> fields[i].0 != fields[j].0
  {
    match body
    case AuthorizationCodeGrant(clientId, redirectUri, code) =>
      var fields := [("client_id", Some(clientId)), ("grant_type", Some("authorization_code")),
                     ("redirect_uri", redirectUri), ("code", code)];
      assert fields[0] == ("client_id", Some(clientId)) && fields[1] == ("grant_type", Some("authorization_code"));
      assert fields[2] == ("redirect_uri", redirectUri) && fields[3] == ("code", code);
      fields
    case RefreshTokenGrant(refreshToken) =>
      var fields := [("grant_type", Some("refresh_token")), ("refresh_token", refreshToken)];
      assert fields[0] == ("grant_type", Some("refresh_token")) && fields[1] == ("refresh_token", refreshToken);
      fields
  }

  /** The value stored under `key`, if the key occurs. */
  function Lookup(fields: seq<(string, Option<string>)>, key: string): (v: Option<Option<string>>)
    ensures v.Some? <==> exists i :: 0 <= i < |fields| && fields[i].0 == key
    ensures v.Some? ==> (key, v.value) in fields
  {
    if |fields| == 0 then None
    else if fields[0].0 == key then Some(fields[0].1)
    else Lookup(fields[1..], key)
  }

  /** How the token endpoint reads a form back: `grant_type` selects the
      grant, whose fields are then looked up by name. */
  function ReadForm(fields: seq<(string, Option<string>)>): Option<Body>
  {
    match Lookup(fields, "grant_type")
    case Some(Some(grant)) =>
      if grant == "authorization_code" then
        match (Lookup(fields, "client_id"), Lookup(fields, "redirect_uri"), Lookup(fields, "code"))
        case (Some(Some(clientId)), Some(redirectUri), Some(code)) => Some(AuthorizationCodeGrant(clientId, redirectUri, code))
        case _ => None
      else if grant == "refresh_token" then
        match Lookup(fields, "refresh_token")
        case Some(refreshToken) => Some(RefreshTokenGrant(refreshToken))
        case None => None
      else None
    case _ => None
  }

  /** The form carries the whole body: reading it back gives the body. */
  lemma ReadFormFields(body: Body)
    ensures ReadForm(FormFields(body)) == Some(body)
  {
    match body
    case AuthorizationCodeGrant(clientId, redirectUri, code) => ReadCodeGrantForm(clientId, redirectUri, code);
    case RefreshTokenGrant(refreshToken) =>
  }

  lemma ReadCodeGrantForm(clientId: string, redirectUri: Option<string>, code: Option<string>)
    ensures ReadForm(FormFields(AuthorizationCodeGrant(clientId, redirectUri, code))) == Some(AuthorizationCodeGrant(clientId, redirectUri, code))
  {
    var fields := FormFields(AuthorizationCodeGrant(clientId, redirectUri, code));
    assert Lookup(fields, "grant_type") == Some(Some("authorization_code"));
    assert Lookup(fields, "client_id") == Some(Some(clientId));
    assert Lookup(fields, "redirect_uri") == Some(redirectUri);
    assert Lookup(fields, "code") == Some(code);
  }

  /** `'%s:%s' % (client_id, client_secret)`. */
  function Credentials(a: FitbitAuth): (r: string)
    ensures |r| == |a.clientId| + |a.clientSecret| + 1
    ensures r[..|a.clientId|] == a.clientId && r[|a.clientId|] == ':' && r[|a.clientId| + 1..] == a.clientSecret
  {
    a.clientId + ":" + a.clientSecret
  }

  /** `'Basic ' + str(base64.b64encode(concat.encode('ascii')), 'utf-8')`. */
  function BasicAuthorization(a: FitbitAuth): (r: Result<string, Error>)
    ensures r.Failure? <==> !Base64.IsAscii(Credentials(a))
    ensures r.Failure? ==> r.error == NonAsciiCredentials
    ensures r.Success? ==> |r.value| >= 6 && r.value[..6] == "Basic "
  {
    match Base64.AsciiEncode(Credentials(a))
    case None => Failure(NonAsciiCredentials)
    case Some(bytes) => Success("Basic " + Base64.Encode(bytes))
  }

  /** The `header` dictionary; raises when the credentials are not ASCII. */
  function BuildHeaders(a: FitbitAuth): (r: Result<Headers, Error>)
    ensures r.Failure? <==> BasicAuthorization(a).Failure?
    ensures r.Success? ==> r.value.authorization == BasicAuthorization(a).value && r.value.contentType == FormContentType
  {
    match BasicAuthorization(a)
    case Failure(e) => Failure(e)
    case Success(authorization) => Success(Headers(authorization, FormContentType))
  }

  /** The body selection as the code is written: a falsy `auth_code` selects
      the authorization-code grant, carrying that same falsy value as `code`;
      a truthy one selects the refresh grant and is itself dropped. */
  function BodyAsWritten(a: FitbitAuth, authCode: Option<string>): (body: Body)
    ensures body.AuthorizationCodeGrant? <==> !Truthy(authCode)
    ensures body.AuthorizationCodeGrant? ==>
      body.code == authCode && body.clientId == a.clientId && body.redirectUri == a.redirectUri
    ensures body.RefreshTokenGrant? ==> body.refreshToken == a.refreshToken
  {
    if !Truthy(authCode) then AuthorizationCodeGrant(a.clientId, a.redirectUri, authCode)
    else RefreshTokenGrant(a.refreshToken)
  }

  /** `get_access_token(auth_code)` up to the point where the source stops:
      the header is built first, so non-ASCII credentials raise whatever the
      code is. */
  function PrepareTokenRequest(a: FitbitAuth, authCode: Option<string>): (r: Result<PreparedRequest, Error>)
    ensures r.Failure? <==> !Base64.IsAscii(Credentials(a))
    ensures r.Failure? ==> r.error == NonAsciiCredentials
    ensures r.Success? ==> r.value.headers == Headers(BasicAuthorization(a).value, FormContentType)
    ensures r.Success? ==> (r.value.body.RefreshTokenGrant? <==> Truthy(authCode))
    ensures r.Success? && r.value.body.RefreshTokenGrant? ==> r.value.body.refreshToken == a.refreshToken
    ensures r.Success? && r.value.body.AuthorizationCodeGrant? ==>
      r.value.body.clientId == a.clientId && r.value.body.redirectUri == a.redirectUri && r.value.body.code == authCode
  {
    match BuildHeaders(a)
    case Failure(e) => Failure(e)
    case Success(headers) => Success(PreparedRequest(headers, BodyAsWritten(a, authCode)))
  }

  /** Splits text at its first `:`, as a Basic-credential reader does. */
  function SplitAtColon(s: string): Option<(string, string)>
  {
    if |s| == 0 then None
    else if s[0] == ':' then Some(("", s[1..]))
    else match SplitAtColon(s[1..])
      case None => None
      case Some(parts) => Some(([s[0]] + parts.0, parts.1))
  }

  lemma {:induction false} SplitAtColonJoined(user: string, password: string)
    requires ':' !in user
    ensures SplitAtColon(user + ":" + password) == Some((user, password))
  {
    var s := user + ":" + password;
    if |user| == 0 {
      assert s == ":" + password;
      assert s[1..] == password;
    } else {
      assert s[1..] == user[1..] + ":" + password;
      assert ':' !in user[1..];
      SplitAtColonJoined(user[1..], password);
      assert [user[0]] + user[1..] == user;
    }
  }

  /** The Basic credential decodes back to `client_id:client_secret`, and,
      when the client id has no `:` of its own (as section 2 of RFC 7617
      requires of a user-id), to the id and the secret themselves. */
  lemma BasicAuthorizationDecodes(a: FitbitAuth)
    requires Base64.IsAscii(Credentials(a))
    ensures var header := BasicAuthorization(a);
      && header.Success?
      && var payload := header.value[6..];
      && var decoded := Base64.Decode(payload);
      && decoded.Some?
      && (forall i :: 0 <= i < |decoded.value| ==> decoded.value[i] < 128)
      && Base64.AsciiDecode(decoded.value) == Credentials(a)
      && (':' !in a.clientId ==> SplitAtColon(Base64.AsciiDecode(decoded.value)) == Some((a.clientId, a.clientSecret)))
  {
    var bytes := Base64.AsciiEncode(Credentials(a)).value;
    var payload := Base64.Encode(bytes);
    assert BasicAuthorization(a).value[6..] == payload;
    Base64.DecodeEncode(bytes);
    Base64.AsciiRoundTrip(Credentials(a));
    if ':' !in a.clientId {
      SplitAtColonJoined(a.clientId, a.clientSecret);
    }
  }

  /** The header is `Basic ` plus four characters per started group of three
      credential bytes. */
  lemma BasicAuthorizationLength(a: FitbitAuth)
    requires Base64.IsAscii(Credentials(a))
    ensures |BasicAuthorization(a).value| == 6 + 4 * ((|a.clientId| + |a.clientSecret| + 3) / 3)
  {
    Base64.EncodeLength(Base64.AsciiEncode(Credentials(a)).value);
  }

  /** The authorization-code grant of the code as written never carries a
      usable code, and a code that is passed in is never sent. */
  lemma AsWrittenNeverSendsCode(a: FitbitAuth, authCode: Option<string>)
    ensures BodyAsWritten(a, authCode).AuthorizationCodeGrant? ==> !Truthy(BodyAsWritten(a, authCode).code)
    ensures Truthy(authCode) ==> BodyAsWritten(a, authCode) == RefreshTokenGrant(a.refreshToken)
    ensures BodyAsWritten(a, Some("abc")).RefreshTokenGrant?
  {
  }

  /** The selection the comment above it describes: exchange a given code,
      otherwise refresh. */
  function IntendedBody(a: FitbitAuth, authCode: Option<string>): (body: Body)
    ensures body.AuthorizationCodeGrant? <==> Truthy(authCode)
    ensures body.AuthorizationCodeGrant? ==>
      body.code == authCode && body.clientId == a.clientId && body.redirectUri == a.redirectUri
    ensures body.RefreshTokenGrant? ==> body.refreshToken == a.refreshToken
  {
    if Truthy(authCode) then AuthorizationCodeGrant(a.clientId, a.redirectUri, authCode)
    else RefreshTokenGrant(a.refreshToken)
  }

  /** The code as written picks the other grant on every input. */
  lemma AsWrittenIsInverted(a: FitbitAuth, authCode: Option<string>)
    ensures BodyAsWritten(a, authCode).AuthorizationCodeGrant? <==> IntendedBody(a, authCode).RefreshTokenGrant?
  {
  }

  /** The request with the corrected body selection. */
  function PrepareIntendedTokenRequest(a: FitbitAuth, authCode: Option<string>): (r: Result<PreparedRequest, Error>)
    ensures r.Failure? <==> !Base64.IsAscii(Credentials(a))
    ensures r.Failure? ==> r.error == NonAsciiCredentials
    ensures r.Success? ==> r.value.headers == Headers(BasicAuthorization(a).value, FormContentType)
    ensures r.Success? ==> r.value.body == IntendedBody(a, authCode)
    ensures r.Success? ==> (r.value.body.AuthorizationCodeGrant? <==> Truthy(authCode))
    ensures r.Success? && r.value.body.AuthorizationCodeGrant? ==> Truthy(r.value.body.code) && r.value.body.code == authCode
    ensures r.Success? && r.value.body.RefreshTokenGrant? ==> r.value.body.refreshToken == a.refreshToken
  {
    match BuildHeaders(a)
    case Failure(e) => Failure(e)
    case Success(headers) => Success(PreparedRequest(headers, IntendedBody(a, authCode)))
  }
}
