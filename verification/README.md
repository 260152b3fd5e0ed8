# FitbitAuth: a Dafny model of the OAuth2 helper of pybit

This project models the part of the `FitbitAuth` class of `pybit/auth.py` that
holds real logic: the constructor's scope check and field storage, the
"pre-authorised" test, the construction of the authorization URL
(`generate_auth_url`, the authorization request of section 4.1.1 of RFC 6749),
and the request preparation inside `get_access_token`. That preparation builds
the HTTP Basic credential of section 2 of RFC 7617 with the Base64 of
section 4 of RFC 4648, and selects a form body. The body is either the
authorization-code grant of section 4.1.3 of RFC 6749 or the refresh grant of
section 6 of RFC 6749.

Everything is pure: a `FitbitAuth` instance is an immutable record whose
optional constructor arguments are `Option`s, and each raising path of the
Python code is a `Failure` of a `Result`.

Modules (one file each):

- `Wrappers` (`wrappers.dfy`): `Option` and `Result`.
- `PyText` (`pytext.dfy`): the Python primitives the class uses. These are
  truthiness of an optional string, `all`, `str.replace` with a one-character
  pattern, and `str.join`. It also holds `str.split` as the inverse of `join`.
- `Base64` (`base64.dfy`): `base64.b64encode`, a decoder, and
  `str.encode('ascii')`.
- `Escape` (`escape.dfy`): the two-character percent-escaping of the redirect
  URI, a per-character reference definition, and an unescaper.
- `Auth` (`auth.dfy`): the class constants, the record, the constructor
  (`New`) and the pre-authorised test.
- `AuthUrl` (`auth_url.dfy`): `generate_auth_url`.
- `TokenRequest` (`token_request.dfy`): the header and body of `get_access_token`.

Three points where the behaviour might be expected to differ from what the
code does; the model follows the code:

- The scope check does not lower-case anything. `"Sleep"` is rejected
  (`Auth.ScopeIsCaseSensitive`).
- A missing redirect URI is accepted by the constructor. It fails later, in
  `generate_auth_url`, when `None.replace` raises.
- No authorization state exists beyond the three stored fields read by the
  pre-authorised test. There is no user id and no authorize/refresh/revoke
  behaviour.

Python's truthiness is modelled explicitly. An optional string is truthy when
it is present and non-empty. `expires_dt` is a `datetime`, which is always
truthy, so only its presence counts.

## Model

| member | source | states |
|---|---|---|
| Auth.VocabularyIsLowerCase | pybit/auth.py:28 | every word of `full_scope` is spelled in lower-case ASCII letters, so it contains no `%` and differs from any capitalised spelling |
| Auth.IsSubsetOfFullScope | pybit/auth.py:38 | `set(scope).issubset(set(self.full_scope))` over the sets of the two lists; by `Auth.SubsetIsMembership` it holds exactly when every element of the scope is a vocabulary word |
| Auth.SubsetIsMembership | pybit/auth.py:38 | `set(scope).issubset(set(full_scope))` holds exactly when every element of the scope list is a vocabulary word |
| Auth.CheckScope | pybit/auth.py:34-41 | an absent or empty scope gives the full vocabulary; a non-empty scope is accepted iff all its elements are vocabulary words, and is then kept as given; otherwise the result is the `ValueError` naming the offending scope; an accepted scope is never empty and lies inside the vocabulary |
| Auth.New | pybit/auth.py:30-45 | construction succeeds iff the scope check passes, and then stores client id, secret, access token, expiry, refresh token and redirect URI exactly as passed; a rejected scope yields the error and no instance |
| Auth.IsPreAuthorized | pybit/auth.py:47-49 | `all([access_token, refresh_token, expires_dt])` holds iff both tokens are present and non-empty and an expiry is present |
| Auth.NewDefaultsToFullScope | pybit/auth.py:35-36 | with no scope or an empty one, the instance holds the nine words activity, heartrate, location, nutrition, profile, settings, sleep, social, weight in that order, whatever the other arguments |
| Auth.NewKeepsValidScope | pybit/auth.py:38-39 | a non-empty scope of vocabulary words is stored unchanged, so order and duplicates are kept |
| Auth.NewRejectsUnknownScope | pybit/auth.py:38-41 | one element outside the vocabulary makes construction fail with `InvalidScope` of the given list, whatever the other arguments |
| Auth.ScopeKeepsDuplicatesAndOrder | pybit/auth.py:38-39 | `["sleep", "activity", "sleep"]` is accepted and kept verbatim |
| Auth.ScopeIsCaseSensitive | pybit/auth.py:38-41 | `["Sleep"]` is rejected, so there is no case normalisation |
| Auth.NewPreAuthorized | pybit/auth.py:42-49 | a freshly built instance is pre-authorised iff the access-token and refresh-token arguments are non-empty strings and an expiry was passed; the scope does not matter |
| PyText.Truthy | pybit/auth.py:67 | Python truthiness of a string that may be `None` (here and in the `all` at line 49): true exactly for a present, non-empty string; `Auth.IsPreAuthorized`, `TokenRequest.BodyAsWritten` and `TokenRequest.IntendedBody` state their choices through it |
| PyText.All | pybit/auth.py:49 | Python's `all` is true iff every element of the list is true |
| PyText.Replace | pybit/auth.py:57 | `s.replace(c, t)` for one character `c`: the result of an empty string is empty, and when `t` does not contain `c` no `c` is left; replacing distributes over concatenation and leaves a string without `c` alone |
| PyText.Join | pybit/auth.py:58 | `sep.join(xs)`: the elements with `sep` between neighbours; `PyText.SplitJoin` shows that splitting at `sep` gives the list back |
| PyText.SplitJoin | pybit/auth.py:58 | splitting a `sep`-joined non-empty list at `sep` returns the list, provided no element contains the separator's first character |
| Escape.EscapeRedirect | pybit/auth.py:57 | the two chained replacements of `:` by `%3A` and then `/` by `%2F`; `Escape.EscapeIsPerChar` shows it equals the independent per-character map, and the rows below state what follows from that |
| Escape.EscapeIsPerChar | pybit/auth.py:57 | the two chained `replace` calls equal the per-character map `:` to `%3A`, `/` to `%2F`, every other character copied |
| Escape.EscapeAppend | pybit/auth.py:57 | escaping a concatenation is the concatenation of the escapes |
| Escape.EscapeRemovesReserved | pybit/auth.py:57 | the escaped redirect URI contains no `:` and no `/` |
| Escape.EscapeLength | pybit/auth.py:57 | the escaped length is the original length plus two for each `:` and each `/` |
| Escape.EscapeKeepsOtherCharacters | pybit/auth.py:57 | a URI without `:` and `/` is returned unchanged, so `%`, `?` and `&` pass through |
| Escape.UnescapeEscape | pybit/auth.py:57 | undoing the two escapes recovers every redirect URI that contains no `%` |
| Escape.EscapeNotInjective | pybit/auth.py:57 | `:` and the literal text `%3A` escape to the same string, because `%` is not escaped |
| AuthUrl.GenerateAuthUrl | pybit/auth.py:53-59 | the URL is built iff a redirect URI is present; without one the call fails as `None.replace` does |
| AuthUrl.GenerateAuthUrlShape | pybit/auth.py:55-59 | the URL is `auth_uri`, `?response_type=code&client_id=`, the client id, `&redirect_uri=`, the per-character escape of the redirect URI, `&scope=` and the `%20`-joined scope, in that order |
| AuthUrl.GenerateAuthUrlIgnoresTokens | pybit/auth.py:53-59 | two instances with the same client id, redirect URI and scope give the same URL, whatever their secrets, tokens and expiries |
| AuthUrl.GenerateAuthUrlRedirect | pybit/auth.py:57 | the redirect component of the URL has no `:` or `/`, and unescaping it gives back the redirect URI when that has no `%` |
| AuthUrl.ValidScopeHasNoPercent | pybit/auth.py:28 | no word of an accepted scope contains `%` |
| AuthUrl.GenerateAuthUrlScope | pybit/auth.py:58 | for an accepted scope the URL ends with the `%20`-joined scope, and splitting that text at `%20` returns the stored scope in order |
| Base64.Encode | pybit/auth.py:64 | `base64.b64encode` read back as text: empty exactly for empty input; pinned to the RFC 4648 alphabet, bit order and padding by `Base64.EncodeTestVectors`, and inverted by `Base64.Decode` (`Base64.DecodeEncode`) |
| Base64.EncodeTestVectors | pybit/auth.py:64 | `base64.b64encode` gives the RFC 4648 section 10 results on `f`, `fo`, `foo`, `foob`, `fooba` and `foobar`, which fixes the alphabet, the bit order and the padding |
| Base64.EncodeLength | pybit/auth.py:64 | the encoding of n bytes has `4 * ceil(n / 3)` characters |
| Base64.EncodeAlphabet | pybit/auth.py:64 | every output character is in the Base64 alphabet, except `=` pads within the last four characters |
| Base64.DecodeEncode | pybit/auth.py:64 | decoding the encoding of any byte string returns that byte string |
| Base64.EncodeInjective | pybit/auth.py:64 | different byte strings have different encodings |
| Base64.AsciiEncode | pybit/auth.py:64 | `encode('ascii')` succeeds iff every code point is below 128, and then gives one byte per character with the code point's value |
| Base64.AsciiRoundTrip | pybit/auth.py:64 | reading ASCII-encoded bytes back as text gives the original string |
| TokenRequest.Credentials | pybit/auth.py:63 | `'%s:%s' % (client_id, client_secret)`: the id, then one `:`, then the secret, so its length is one more than the two together |
| TokenRequest.BasicAuthorization | pybit/auth.py:63-64 | the credential fails with `NonAsciiCredentials` iff `client_id:client_secret` has a non-ASCII character, and otherwise starts with `Basic ` |
| TokenRequest.BasicAuthorizationDecodes | pybit/auth.py:63-64 | the Base64 after `Basic ` decodes to `client_id:client_secret`; when the client id has no `:`, splitting at the first `:` gives back the id and the secret |
| TokenRequest.BasicAuthorizationLength | pybit/auth.py:63-64 | the header has `6 + 4 * ceil((len(id) + len(secret) + 1) / 3)` characters |
| TokenRequest.BuildHeaders | pybit/auth.py:64-65 | the header dictionary fails exactly when the Basic credential does, and otherwise holds that credential and the content type `application/x-www-form-urlencoded` |
| TokenRequest.BodyAsWritten | pybit/auth.py:67-75 | the body as the code selects it: the code grant exactly when `auth_code` is falsy, carrying the client id, the redirect URI and that falsy code; otherwise the refresh grant with the stored refresh token |
| TokenRequest.FormFields | pybit/auth.py:67-75 | the code-grant form has exactly four fields: `client_id`, `grant_type=authorization_code`, `redirect_uri` and `code`, each carrying the body's value; the refresh form has exactly two: `grant_type=refresh_token` and the stored refresh token; no key repeats |
| TokenRequest.ReadFormFields | pybit/auth.py:67-75 | reading the form back by field name (`grant_type` first, then the grant's own fields) recovers the body it was built from, for either grant |
| TokenRequest.PrepareTokenRequest | pybit/auth.py:61-75 | the header is built first, so non-ASCII credentials raise whatever the code is; otherwise the headers are exactly the `Basic` credential of the client id and secret and the content type `application/x-www-form-urlencoded`; the refresh grant is chosen iff `auth_code` is truthy and carries the stored refresh token; the code grant carries the client id, the redirect URI and `auth_code` itself |
| TokenRequest.AsWrittenNeverSendsCode | pybit/auth.py:67-75 | the code grant as written only ever carries a falsy code, and a truthy `auth_code` such as `"abc"` is dropped in favour of the refresh grant |
| TokenRequest.IntendedBody | pybit/auth.py:62 | the corrected selection picks the code grant iff a truthy code is given and then carries that code; otherwise it refreshes with the stored refresh token, which may itself be `None` (see "Left out") |
| TokenRequest.AsWrittenIsInverted | pybit/auth.py:62-75 | on every input the code as written picks the code grant exactly when the corrected selection picks the refresh grant |
| TokenRequest.PrepareIntendedTokenRequest | pybit/auth.py:61-75 | the request with the corrected selection fails with the non-ASCII error exactly when the credentials are not ASCII, carries the same `Basic` header and content type, and its body is the corrected selection: a code grant always carrying the truthy code it was given, otherwise the refresh grant with the stored refresh token |

## Findings

| source | as written | input that shows it | evidently intended | confidence | as-written member | corrected member |
|---|---|---|---|---|---|---|
| pybit/auth.py:62-75 | `if not auth_code:` builds the `authorization_code` grant with `code = auth_code`, otherwise the `refresh_token` grant | `auth_code="abc"` gives the refresh grant and the code is never sent; `auth_code=None` gives a code grant whose `code` is `None` | the comment at line 62 reads "If no auth_code and have refresh_token, then refresh"; a given code is exchanged, and with no code the refresh grant is sent | high; not executed | TokenRequest.AsWrittenNeverSendsCode | TokenRequest.IntendedBody |

`TokenRequest.PrepareTokenRequest` keeps the selection as written.
`TokenRequest.PrepareIntendedTokenRequest` is the same request built on the
corrected `TokenRequest.IntendedBody`. `TokenRequest.AsWrittenIsInverted`
shows that the two selections disagree on every input.

## Left out

- The token lifecycle is not modelled: code exchange, expiry tracking, refresh rotation and revocation. `get_access_token` stops after building its request (pybit/auth.py:77), and `revoke_access` and `_call` are empty (pybit/auth.py:80, 83), so no such behaviour exists. `PrepareTokenRequest` returns the prepared request that the Python method builds and then discards.
- HTTP I/O is not modelled: the request is never sent in this code, and `api_uri` is declared (`Auth.ApiUri`) but never used by it.
- pybit/fitbit.py, pybit/resource.py and setup.py are not part of this model. They are resource accessors (HTTP calls, date parsing, dataframe shaping, or stubs), empty classes, and packaging metadata.
- The string literal at pybit/auth.py:6-21 is not modelled, since it is dead code.
- The text of the `ValueError` message (Python's `repr` of the scope list) is not modelled; the error carries the offending list itself.
- Dynamic typing is not modelled. The scope is taken to be a list of strings, the credentials and tokens strings, and the expiry a `datetime`. Python would also accept, for example, a bare string as scope and check its characters.
- Aliasing is not modelled. The Python code stores the class-level `full_scope` list itself as the default scope, so mutating one instance's scope would change it for every instance. Here values are immutable.
- `Escape.UnescapeEscape` and `AuthUrl.GenerateAuthUrlRedirect` recover the redirect URI only when it contains no `%`. The source escapes neither `%` nor `&`, so in general the URI cannot be recovered (`Escape.EscapeNotInjective`).
- `TokenRequest.IntendedBody` sends the refresh grant whenever no code is given, even when there is no refresh token either. The comment at pybit/auth.py:62 covers only the case where a refresh token exists; for the remaining case the model makes its own choice, the refresh grant carrying `None`, which is what the written `else` branch would send.
- `TokenRequest.BasicAuthorizationDecodes` recovers the id and the secret separately only when the client id has no `:`. The source does not check this, and section 2 of RFC 7617 forbids a `:` in the user-id.
