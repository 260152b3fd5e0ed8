/** The partial percent-encoding that `generate_auth_url` applies to the
    redirect URI: `:` becomes `%3A` and `/` becomes `%2F`, and nothing else is
    escaped. Section 2.1 of RFC 3986 would escape every reserved character;
    this escaper covers only these two. */
module Escape {
  import opened PyText

  /** The escaping as the code writes it: two chained `str.replace` calls. */
  function EscapeRedirect(u: string): string
  {
    Replace(Replace(u, ':', "%3A"), '/', "%2F")
  }

  /** The escape of a single character. */
  function EscapeChar(c: char): string
  {
    if c == ':' then "%3A" else if c == '/' then "%2F" else [c]
  }

  /** Reference definition: the escape of each character, concatenated. */
  function PerCharEscape(u: string): string
  {
    if |u| == 0 then "" else EscapeChar(u[0]) + PerCharEscape(u[1..])
  }

  /** The chained replacements are a per-character map: the `%3A` that the
      first replacement introduces contains no `/` for the second to touch. */
  lemma {:induction false} EscapeIsPerChar(u: string)
    ensures EscapeRedirect(u) == PerCharEscape(u)
  {
    if |u| > 0 {
      var first := if u[0] == ':' then "%3A" else [u[0]];
      assert Replace(u, ':', "%3A") == first + Replace(u[1..], ':', "%3A");
      ReplaceAppend(first, Replace(u[1..], ':', "%3A"), '/', "%2F");
      if u[0] == ':' {
        assert '/' !in "%3A";
        ReplaceAbsent("%3A", '/', "%2F");
      } else {
        assert Replace(first, '/', "%2F") == (if u[0] == '/' then "%2F" else [u[0]]) + Replace("", '/', "%2F");
      }
      EscapeIsPerChar(u[1..]);
    }
  }

  lemma {:induction false} PerCharEscapeAppend(a: string, b: string)
    ensures PerCharEscape(a + b) == PerCharEscape(a) + PerCharEscape(b)
  {
    if |a| == 0 {
      assert a + b == b;
    } else {
      assert (a + b)[1..] == a[1..] + b;
      PerCharEscapeAppend(a[1..], b);
    }
  }

  /** Escaping is compatible with concatenation. */
  lemma EscapeAppend(a: string, b: string)
    ensures EscapeRedirect(a + b) == EscapeRedirect(a) + EscapeRedirect(b)
  {
    EscapeIsPerChar(a + b);
    EscapeIsPerChar(a);
    EscapeIsPerChar(b);
    PerCharEscapeAppend(a, b);
  }

  lemma {:induction false} PerCharEscapeHasNoReserved(u: string)
    ensures ':' !in PerCharEscape(u) && '/' !in PerCharEscape(u)
  {
    if |u| > 0 {
      PerCharEscapeHasNoReserved(u[1..]);
    }
  }

  /** The escaped redirect URI contains neither `:` nor `/`. */
  lemma EscapeRemovesReserved(u: string)
    ensures ':' !in EscapeRedirect(u) && '/' !in EscapeRedirect(u)
  {
    EscapeIsPerChar(u);
    PerCharEscapeHasNoReserved(u);
  }

  /** Each `:` or `/` grows the string by two characters; everything else
      keeps its length. */
  lemma {:induction false} EscapeLength(u: string)
    ensures |EscapeRedirect(u)| == |u| + 2 * (multiset(u)[':'] + multiset(u)['/'])
  {
    EscapeIsPerChar(u);
    PerCharEscapeLength(u);
  }

  /** How often `c` occurs in `u`, counted from its first character. */
  lemma CountFirst(u: string, c: char)
    requires |u| > 0
    ensures multiset(u)[c] == (if u[0] == c then 1 else 0) + multiset(u[1..])[c]
  {
    assert u == [u[0]] + u[1..];
    assert multiset(u) == multiset([u[0]]) + multiset(u[1..]);
  }

  lemma {:induction false} PerCharEscapeLength(u: string)
    ensures |PerCharEscape(u)| == |u| + 2 * (multiset(u)[':'] + multiset(u)['/'])
  {
    if |u| > 0 {
      CountFirst(u, ':');
      CountFirst(u, '/');
      PerCharEscapeLength(u[1..]);
    }
  }

  /** A URI without `:` or `/` passes through unchanged: every other
      character, `%`, `?` and `&` included, is copied as it is. */
  lemma EscapeKeepsOtherCharacters(u: string)
    requires ':' !in u && '/' !in u
    ensures EscapeRedirect(u) == u
  {
    ReplaceAbsent(u, ':', "%3A");
    ReplaceAbsent(u, '/', "%2F");
  }

  /** Inverse of the escaping: `%3A` and `%2F` are turned back, every other
      character is copied. */
  function Unescape(s: string): string
    decreases |s|
  {
    if |s| == 0 then ""
    else if |s| >= 3 && s[..3] == "%3A" then ":" + Unescape(s[3..])
    else if |s| >= 3 && s[..3] == "%2F" then "/" + Unescape(s[3..])
    else [s[0]] + Unescape(s[1..])
  }

  /** Unescaping reads one escaped character back off the front. */
  lemma UnescapeEscapeChar(c: char, rest: string)
    requires c != '%'
    ensures Unescape(EscapeChar(c) + rest) == [c] + Unescape(rest)
  {
    var s := EscapeChar(c) + rest;
    if c == ':' || c == '/' {
      assert s[..3] == EscapeChar(c);
      assert s[3..] == rest;
    } else {
      assert s[0] == c;
      assert s[1..] == rest;
    }
  }

  lemma {:induction false} UnescapePerCharEscape(u: string)
    requires '%' !in u
    ensures Unescape(PerCharEscape(u)) == u
  {
    if |u| > 0 {
      assert '%' !in u[1..];
      UnescapePerCharEscape(u[1..]);
      UnescapeEscapeChar(u[0], PerCharEscape(u[1..]));
      assert [u[0]] + u[1..] == u;
    }
  }

  /** Unescaping recovers any redirect URI that has no `%` of its own. */
  lemma UnescapeEscape(u: string)
    requires '%' !in u
    ensures Unescape(EscapeRedirect(u)) == u
  {
    EscapeIsPerChar(u);
    UnescapePerCharEscape(u);
  }

  /** Because `%` itself is not escaped, a literal `%3A` in the redirect URI
      is indistinguishable from an escaped `:`. */
  lemma EscapeNotInjective()
    ensures EscapeRedirect(":") == EscapeRedirect("%3A") && ":" != "%3A"
  {
    EscapeIsPerChar(":");
    EscapeIsPerChar("%3A");
    assert PerCharEscape("%3A") == "%" + PerCharEscape("3A");
  }
}
